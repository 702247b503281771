# Verified model of the vendored C libraries

A Dafny 4.11 model of the parts of this repository that hold its hard properties, each with the proofs
of what it is for. `dafny verify dfyconfig.toml` checks everything.

| files | what they model |
|---|---|
| `arithmetic`, `limbs`, `bigint`, `multiply`, `divide`, `barrett`, `modpower`, `paddedmodulus`, `crt` | krypton's multi-precision integers: limbs in base 2^32, changed in place by carry loops; partial products, long division with quotient correction, Barrett reduction, modular powers, recombination of two half powers, also with a modulus that an addition has padded |
| `octets`, `hashing`, `sha` | the streaming of krypton's SHA-1 and SHA-256 around an arbitrary compression function |
| `bytes`, `alphabets`, `objecttable`, `jsonobject` | byte strings, and characters by their places in written-out alphabets; parson's object table: open addressing over dense arrays, swap-with-last removal, backward shift |
| `jsontext`, `utf8`, `jsonroundtrip`, `jsonreader`, `jsonwriter` | parson's parser and serializer, as functions on texts and as the code that moves a pointer and fills a buffer; its UTF-8 check against RFC 3629 |
| `jsonstrings`, `jsongrammar`, `jsonaccepted`, `jsonlayout` | the texts of RFC 8259 as a grammar with a meaning, which is exactly what the parser takes and makes of it; the layout of what the serializer writes |
| `httpparser`, `httpruns`, `httpexecute`, `httpnames`, `httplists`, `httpchars`, `httpmessages`, `httpresponses`, `httpframing`, `httplanguage` | the response half of http_parser in strict mode: one byte, runs and cuts, the loop with its marks, header recognition, lists in Connection headers, whole messages, their framing against RFC 7230, and which bytes are taken for a header at all |
| `urlstates`, `urlsyntax`, `urlscan`, `urlhost`, `urlforms`, `urls` | http_parser's URL splitter: its states, the syntax of URLs by their parts, what the states are over a URL joined from parts, and the code |
| `websocket`, `wsevents`, `wsconnection` | mongoose's WebSocket frames, what each of them makes it do, their in-place reassembly, and what it sends |
| `base64`, `crctable`, `crc` | mongoose's base64; the table CRC of bin_crc_make against mongoose's bitwise one |
| `rings`, `linuxlist`, `dllist` | list surgery on the heap, for linux_kenel_list.h and for eloop's list.h |
| `timeouts`, `firing`, `eloop` | eloop's timeouts as a sequence over whole runs, what fires and when, and on their linked list |

Sequences and functions say what is computed; the classes and methods are the code, in the source's own
form, proved against them. The lemmas then say what the source promises. `hide` statements only withhold
definitions from single proofs.

## What the proofs found

Each of these has a lemma or a contract, named in brackets.

* **krypton.** `bi_divide` and `bi_set_mod` divide by zero exactly for a divisor whose top limb is 0xFFFFFFFF, because
  the sum in `RADIX / (V1 + 1)` is taken in 32 bits (`Division.NormaliserWraps`). After the test of the second limb
  the estimated digit is at most one too large, so one add-back suffices. `bi_barrett`'s estimate is at most three too
  small, so the result is below three moduli. `bi_crt` has a result congruent to m1 modulo p, when nothing is lost in
  a reduction, exactly if the subtraction `m1 + p - m2` does not wrap, or wraps by a multiple of p (`Crt.BiCrt`); a
  guard on the two primes rules it out (`Crt.Guards`), and without it the residue can be missed
  (`Crt.WrapLosesResidue`). RSA passes the context's own p, and `bi_add` pads that when m1 is longer; the next
  reduction then loses the part of a long number above two limbs more than p has (`PaddedModulus.ReducePadded`), and p
  may stay padded, so that the key is no longer one (`Crt.BiCrt`).
* **parson.** `is_valid_utf8` on a part of a string accepts a sequence that the part cuts off
  (`Utf8.CutSequenceAccepted`, and in general `Utf8.PartIsValid`). A refused `\u` escape with fewer than three
  characters before the closing quote is looked at beyond that quote, though never beyond the terminating zero
  (`JsonReader.LooksBehindQuote`, and in general `JsonReader.LookInside`). Beyond RFC 8259, form feeds and vertical
  tabs are white space, a byte order mark is skipped, and anything may follow the value; what is taken is otherwise
  exactly the grammar, up to a nesting of 2048 (`JsonAccepted.ParsedIffSaid`).
* **http_parser, streams.** How a stream is cut changes nothing when the stream is accepted. When it is refused inside
  an item, the callbacks have seen the part of the item before the cut, and would not have seen it in one piece
  (`HttpRuns.CutUnnoticed` says exactly when, `HttpResponses.CutNoticed` is an instance). `on_message_begin` fires for
  every CR or LF before a status line (`HttpResponses.LineEndsBefore`). A call that ends inside a name or a value
  may count one byte of the header too many (`HttpExecute.Parser.Execute`). When a header of more than 80 kB is found at
  an LF without CR, the parser is left in the next state with an old header state (`HttpExecute.Parser.OverflowAtLf`).
* **http_parser, headers.** What is taken for a header is wider than RFC 7230: line feeds without carriage returns,
  line ends before the status line, several spaces before the code, a status line without a reason, and values folded
  over lines, of which the spaces are told as part of the value (`HttpLanguage.HeadLanguage`).
* **http_parser, framing.** The parser does not follow section 3.3.3 of RFC 7230 for 1xx, 204 and 304 responses that
  give a length or chunks, for lists of transfer codings, for lengths that differ or are malformed, and for empty
  lines (`HttpFraming.EmptyLength`, `HttpFraming.EmptyCoding`); `HttpFraming.FramedAsRfc` says exactly when it does,
  over the status code and the header lines. It leaves a response that would last until the connection closes if the
  response upgrades (`HttpFraming.UpgradeLeaves`). In a Connection header, an item that breaks off inside one of the
  known words swallows the next one, and nothing is read behind an item that is empty (`HttpFraming.SwallowedItem`,
  `HttpFraming.NothingBehind`).
* **http_parser, URLs.** Places and lengths have 16 bits: a path of 2^16 bytes is stored as an empty one
  (`Urls.LongPath`). The number of a port is read on behind the end of the URL (`Urls.PortOfText`). Number signs in
  front of a fragment are skipped, a fragment directly behind the authority is refused, an empty URL is taken, and for
  CONNECT a question mark and number signs behind the port are overlooked (`UrlSyntax.Allowed`).
* **eloop.** A timeout of 2^31 seconds or more is dropped and success is reported. From 2^31 on microseconds are read
  as negative: `Timeouts.DeadlineInThePast` says when that puts a deadline before its registration. Deadlines fire in
  order as long as all requests are of the kind of `Timeouts.Orderly` (`Timeouts.FiredInOrder`), and any other request
  can make them fire out of order (`Timeouts.OrderLost`). `eloop_deplete_timeout` and its opposite compare
  microseconds that are not brought into range, so depleting can prolong a timeout (`Timeouts.DepleteLengthens`;
  `Timeouts.DepleteShortens` says exactly when they do what they say, also when the clock moves between the two
  readings).
* **linux_kenel_list.h.** `list_cut_position` leaves its destination untouched when the source list is empty.
* **mongoose.** A frame of more than 2^30 octets is never taken and stops the stream. A final continuation frame with
  no data and nothing before it is outside the protocol; the model names it (`Stray`) and goes no further. The base64
  decoder ignores up to three characters at the end, and takes `=` in the middle of a text, too (`Base64.DecodedText`).

## Model

| member | source | states |
|---|---|---|
| BigInts.Add | httpclient/src/krypton.c:1674-1700 | the sum, for all lengths; the second operand is left padded to the longer length |
| BigInts.Subtract | httpclient/src/krypton.c:1711-1739 | the difference modulo the radix power of the first operand's length, and a borrow exactly if it is the smaller |
| BigInts.IntMultiply | httpclient/src/krypton.c:1744-1765 | the product by one limb |
| BigInts.IntDivide | httpclient/src/krypton.c:1886-1900 | the quotient by one limb |
| BigInts.RightShift | httpclient/src/krypton.c:1934-1954 | division by a power of the radix, also when every limb is shifted out |
| BigInts.LeftShift | httpclient/src/krypton.c:1959-1980 | multiplication by a power of the radix |
| BigInts.Compare | httpclient/src/krypton.c:2355-2386 | lengths first; for equal lengths or trimmed numbers the order of the values |
| BigInts.Trim | httpclient/src/krypton.c:2502-2510 | leading zero limbs go, the value stays |
| BigInts.CompMod | httpclient/src/krypton.c:2554-2562 | the remainder by a power of the radix |
| Multiplication.RegularMultiply | httpclient/src/krypton.c:2163-2206 | the product; with partial products, how much the columns left out can lose below and what is cut off above |
| Division.FirstEstimate | httpclient/src/krypton.c:1815-1819 | the digit from two limbs of the window and the top limb of the divisor is at most two too large |
| Division.SecondLimbTestFires | httpclient/src/krypton.c:1821-1832 | the second-limb test lowers the estimate only if it is too large |
| Division.SecondLimbTestQuiet | httpclient/src/krypton.c:1821-1832 | if the test does not hold, the estimate is at most one too large |
| Division.EstimateDigit | httpclient/src/krypton.c:1815-1833 | the corrected digit is at most one too large and never too small |
| Division.ReduceWindow | httpclient/src/krypton.c:1835-1858 | after multiply, subtract and one add-back the digit is exact and the window below the divisor |
| Division.DivideStep | httpclient/src/krypton.c:1809-1863 | dividend plus quotient times divisor is conserved by every digit |
| Division.Divide | httpclient/src/krypton.c:1778-1881 | the floor of the quotient, or in the other mode the remainder by the context's modulus, and nothing else changes |
| Division.NormaliserWraps | httpclient/src/krypton.c:1796-1798 | exactly for which leading limb the normaliser's divisor is zero |
| Barrett.SetMod | httpclient/src/krypton.c:2102-2132 | the normalised modulus and the floor of the reciprocal mu |
| Barrett.BarrettEstimate | httpclient/src/krypton.c:2570-2590 | with mu and the truncated product the estimate is between the quotient less three and the quotient |
| Barrett.EstimateQuotient | httpclient/src/krypton.c:2570-2590 | that estimate, from the limbs |
| Barrett.SubtractEstimate | httpclient/src/krypton.c:2588-2594 | the subtraction on k + 1 limbs is exact although both operands are cut |
| Barrett.Reduce | httpclient/src/krypton.c:2570-2601 | congruent to the argument and below three moduli, also when the argument is too long for Barrett |
| ModPower.FindMaxExpIndex | httpclient/src/krypton.c:2443-2459 | the place of the highest bit that is set, or -1 exactly for zero |
| ModPower.ExpBitIsOne | httpclient/src/krypton.c:2465-2478 | the bit of the exponent |
| ModPower.MultiplyReduce | httpclient/src/krypton.c:2665-2680 | a product modulo the modulus, by a reduction that may leave up to three moduli |
| ModPower.BiModPower | httpclient/src/krypton.c:2643-2719 | congruent to the power, by an invariant over the bits of the exponent |
| Crt.Recombined | httpclient/src/krypton.c:2773-2796 | Garner's formula |
| Crt.Residues | httpclient/src/krypton.c:2784-2795 | congruent to m2 modulo q exactly if what is cut off m2 is a multiple of q, and to m1 modulo p exactly if the wrap and the lost limbs add up to one of p |
| PaddedModulus.EstimateFarBelow | httpclient/src/krypton.c:2570-2590 | with a padded modulus Barrett's estimate is too small by two powers of the radix |
| PaddedModulus.ReducePadded | httpclient/src/krypton.c:2570-2601 | then a number short enough is still reduced to a congruent one, and one of twice the radix power loses its upper part |
| Crt.BiCrt | httpclient/src/krypton.c:2773-2796 | m1 and m2, the flaws that come of them, and the result, for a p of its own and for the context's own p; guards on p and q alone rule every flaw out; the key can be used again exactly if its p is not left padded |
| Crt.Guards | httpclient/src/krypton.c:2773-2796 | what rules out that p is padded, and that the subtraction wraps |
| Crt.BothResidues | httpclient/src/krypton.c:2773-2796 | without flaws the result is congruent to both powers of the message |
| Crt.WrapLosesResidue | httpclient/src/krypton.c:2773-2796 | p = 3, q = 17 and the message 16: the subtraction wraps and the residue modulo p is missed |
| Hashing.BlocksAppend | httpclient/src/krypton.c:3660-3682 | compressing blocks one after another is compressing them all |
| Hashing.HoldsBlock | httpclient/src/krypton.c:3660-3682 | a part of a block and the octets that fill it are compressed as the message has them |
| Hashing.HoldsAll | httpclient/src/krypton.c:3684-3699 | at the end of the padding the state is the hash of the message |
| Hashing.PaddingIsFips | httpclient/src/krypton.c:3684-3697 | the padding is a one bit, as few zeros as fill the block, and the length in bits in eight octets in network order |
| Sha.Sha1.Update | httpclient/src/krypton.c:3660-3682 | the message taken so far is extended, however it is cut |
| Sha.Sha1.Final | httpclient/src/krypton.c:3684-3699 | the compression folded over the blocks of the once-padded message |
| Sha.LengthOctets | httpclient/src/krypton.c:3684-3692 | two words of the size are the 64-bit length in bits |
| Sha.PaddingInTwo | httpclient/src/krypton.c:3684-3697 | the two updates of the end are the padding of FIPS 180-4 section 5.1.1 |
| Sha.Sha256.Update | httpclient/src/krypton.c:4207-4253 | the message taken so far is extended, however it is cut |
| Sha.Sha256.Pad | httpclient/src/krypton.c:4255-4300 | padding in one block or two, by how full the buffer is |
| Sha.Sha256.Final | httpclient/src/krypton.c:4255-4320 | the compression folded over the blocks of the once-padded message |
| Sha.HashSha1 | httpclient/src/krypton.c:3701-3710 | the hash of a message in parts is that of the whole |
| Sha.HashSha256 | httpclient/src/krypton.c:4322-4331 | the hash of a message in parts is that of the whole |
| ObjectTable.AddKeepsTable | parson/src/parson.c:560-594 | adding at the empty cell where the search ended keeps cells and items inverse and every search path full |
| ObjectTable.StartShift | parson/src/parson.c:614-645 | swapping with the last item leaves one cell to be emptied and everything else intact |
| ObjectTable.ShiftMove | parson/src/parson.c:650-665 | an item that depends on the cell moves there, and its own cell is next |
| ObjectTable.ShiftPast | parson/src/parson.c:650-665 | an item that does not depend on the cell may stay |
| ObjectTable.ShiftDone | parson/src/parson.c:650-671 | at an empty cell the backward shift is complete: no search path has a gap |
| ObjectTable.NotInTable | parson/src/parson.c:529-558 | a search that ends at an empty cell shows that the key is absent |
| ObjectTable.SearchEnds | parson/src/parson.c:537-557 | there is always an empty cell for a search to end at |
| JsonObjects.JsonObject.GetCellIx | parson/src/parson.c:529-558 | the key's cell, or the empty cell where it belongs |
| JsonObjects.JsonObject.GetnValue | parson/src/parson.c:596-612 | the value of the key |
| JsonObjects.JsonObject.Add | parson/src/parson.c:560-594 | appends a new key, growing if need be, and refuses one that is there |
| JsonObjects.JsonObject.GrowAndRehash | parson/src/parson.c:499-527 | the same items in the same order, with room for one more |
| JsonObjects.JsonObject.SetValue | parson/src/parson.c:2056-2097 | replaces the value of a key or appends it |
| JsonObjects.JsonObject.Remove | parson/src/parson.c:614-672 | the last item takes the removed one's place, all else stays and is found |
| JsonObjects.StepRefinesMap | parson/src/parson.c:560-672 | each operation is the operation on a finite map, with the same answer |
| JsonObjects.RunRefinesMap | parson/src/parson.c:429-672 | over any run a table answers like a finite map and ends holding it |
| JsonObjects.JsonObject.Run | parson/src/parson.c:429-672 | any operations on the object, one after another, are those operations on a finite map |
| JsonRoundTrip.StringRoundTrip | parson/src/parson.c:1245-1310 | every string survives escaping and unescaping, with either slash setting |
| JsonRoundTrip.ValueRoundTrip | parson/src/parson.c:898-991 | every value survives serializing and parsing, in its place in a text |
| JsonRoundTrip.RoundTrip | parson/src/parson.c:1355-1363 | parsing a serialized value gives it back if it is nested at most 2048 deep, and fails if it is nested deeper |
| JsonReader.Reader.SkipQuotes | parson/src/parson.c:761-779 | finds the closing quote, or that there is none |
| JsonReader.OneInside | parson/src/parson.c:781-825 | an escape that is accepted does not reach past the closing quote that skip_quotes found |
| JsonReader.LookInside | parson/src/parson.c:293-306 | process_string looks behind the closing quote exactly if some hexadecimal escape it comes to has fewer than three characters before it |
| JsonReader.AcceptedHasRoom | parson/src/parson.c:781-883 | which never happens in a string that is accepted |
| JsonReader.LooksBehindQuote | parson/src/parson.c:293-306 | a refused escape for which it happens |
| JsonReader.Reader.ProcessString | parson/src/parson.c:830-883 | the contents, no longer than the input and within its buffer, and how far the text is looked at: never past the terminating zero |
| Utf8.VerifyIsRfc | parson/src/parson.c:309-364 | the bytes taken for one sequence are exactly a sequence of the grammar in section 4 of RFC 3629 |
| Utf8.IsValidUtf8 | parson/src/parson.c:366-376 | the loop over a string or a part of one |
| Utf8.WholeIsExact | parson/src/parson.c:366-376 | of a whole string the check is exact |
| Utf8.PartIsValid | parson/src/parson.c:1625-1635 | of a part it asks whether that part or some longer one is well-formed |
| Utf8.CutSequenceAccepted | parson/src/parson.c:1625-1635 | so a part that ends inside a sequence is accepted |
| Utf8.Utf8IsSequence | parson/src/parson.c:781-825 | the bytes stored for a code point are one well-formed sequence that says it, exactly if it is no surrogate |
| Utf8.NoLoneSurrogate | parson/src/parson.c:781-825 | an escape is accepted exactly for a code point that is no surrogate, and for a lead with its trail |
| Utf8.ProcessKeepsValid | parson/src/parson.c:830-883 | the contents of a well-formed text are well-formed |
| JsonReader.Reader.ReadValue | parson/src/parson.c:898-921 | the pointer code reads what the parsing function says and stops where it says |
| JsonReader.Reader.ReadObject | parson/src/parson.c:923-988 | the same for objects |
| JsonReader.Reader.ReadArray | parson/src/parson.c:993-1037 | the same for arrays |
| JsonStrings.StringRead | parson/src/parson.c:830-896 | a string of characters as they are written, with escapes of two characters, of four digits in either case and of pairs, is read as what they stand for |
| JsonStrings.ReadIsString | parson/src/parson.c:830-896 | and whatever is read as a string is one, with these contents |
| JsonStrings.CharIsSequence | parson/src/parson.c:781-825 | a character written by its number is stored as the one UTF-8 sequence of that number |
| JsonGrammar.DocRead | parson/src/parson.c:898-1037 | a text of the grammar, with white space and anything behind it, is read as its value, exactly when it is not nested too deep |
| JsonGrammar.ValueIsWellFormed | parson/src/parson.c:923-988 | what a text stands for has distinct keys without zeros |
| JsonAccepted.ReadIsDoc | parson/src/parson.c:898-1037 | whatever is read as a value is a text of the grammar that stands for it |
| JsonAccepted.TextIsParsed | parson/src/parson.c:1355-1363 | a whole text behind a byte order mark or none is parsed to its value, unless that is nested deeper than 2048 |
| JsonAccepted.ParsedIffSaid | parson/src/parson.c:1355-1363 | a text is parsed to a value if and only if it says that value in the grammar and does not nest it too deep |
| JsonWriter.Output.AppendValue | parson/src/parson.c:1102-1243 | puts out the serialized value, within a buffer of its size |
| JsonWriter.Output.AppendQuoted | parson/src/parson.c:1245-1310 | puts out the escaped string |
| JsonWriter.SerializationSize | parson/src/parson.c:1771-1775 | the length of the text and its terminating zero |
| JsonWriter.SerializeToBuffer | parson/src/parson.c:1777-1788 | succeeds exactly if the buffer holds the text and its zero, and leaves it alone otherwise |
| JsonWriter.SerializeToString | parson/src/parson.c:1812-1829 | the serialized value |
| JsonLayout.EscapeTable | parson/src/parson.c:1245-1310 | how each character of a string is written, the slash under either setting |
| JsonLayout.CompactText | parson/src/parson.c:1102-1243 | without pretty printing the text has no white space outside strings, at any level |
| JsonLayout.PrettyText | parson/src/parson.c:1102-1243 | with it every part has its lines, indented by four spaces for every level, with a comma behind each but the last |
| HttpParser.StepKeepsSound | httpclient/src/http_parser.c:628-2097 | every byte keeps what the asserts of the parser rely on |
| HttpParser.LengthNeverWraps | httpclient/src/http_parser.c:1585-1610 | a content length is exact and never the value that stands for none |
| HttpChars.UnhexIsPlace | httpclient/src/http_parser.c:224-233 | the table is the place of a byte among the hexadecimal digits of either case, and -1 for every other |
| HttpChars.DigitIsPlace | httpclient/src/http_parser.c:414-414 | a digit is worth its place |
| HttpChars.LowerSetsBit | httpclient/src/http_parser.c:412-412 | bit 5 of a byte is set, which is the lower case exactly of a letter |
| HttpChars.TokenCharacters | httpclient/src/http_parser.c:189-221 | the entries of the table are the token characters of RFC 7230, letters in lower case |
| HttpChars.KnownWords | httpclient/src/http_parser.c:164-171 | the words of the names and tokens |
| HttpChars.NameInAnyCase | httpclient/src/http_parser.c:1339-1436 | a name is compared in any case |
| HttpChars.ValueInAnyCase | httpclient/src/http_parser.c:1612-1712 | and so is a value |
| HttpLanguage.HeadingRead | httpclient/src/http_parser.c:644-1790 | every text of the language of headers is read up to where it is, and told as its reason, names and values |
| HttpLanguage.ReadIsHeading | httpclient/src/http_parser.c:644-1790 | bytes that are not refused and complete no header are a text of that language |
| HttpLanguage.HeadLanguage | httpclient/src/http_parser.c:644-1790 | both together: exactly which bytes are read from the start of a response without completing its header |
| HttpLanguage.LineFeedCompletes | httpclient/src/http_parser.c:1279-1297 | between lines a line feed completes the header |
| HttpLanguage.SizeRefusals | httpclient/src/http_parser.c:1940-2013 | exactly which bytes are refused in the line of a chunk's size |
| HttpLanguage.BodyRefusals | httpclient/src/http_parser.c:2015-2058 | and behind a chunk's data, in a body, and after the last message |
| HttpRuns.StepWell | httpclient/src/http_parser.c:86-149 | no notification comes while data is held back |
| HttpRuns.CutAnywhere | httpclient/src/http_parser.c:628-2097 | a stream in two calls gives the fields, the error, the return values and the callback data of one call, except for what an error drops |
| HttpRuns.CutUnnoticed | httpclient/src/http_parser.c:670-693 | exactly when a cut makes no difference |
| HttpRuns.CutsUnnoticed | httpclient/src/http_parser.c:2083-2097 | an accepted stream may be cut anywhere, any number of times |
| HttpExecute.Skip | httpclient/src/http_parser.c:1555-1578 | bytes that a loop skips over are what the parser makes of them one by one |
| HttpExecute.Parser.ReadField | httpclient/src/http_parser.c:1329-1455 | the loop over a header name |
| HttpExecute.Parser.SkipGeneral | httpclient/src/http_parser.c:1555-1578 | the search for the end of a value finds it, or the header is too long |
| HttpExecute.Parser.ReadBody | httpclient/src/http_parser.c:1888-2042 | as much of a body or chunk as there is, and the end of the message with its last byte |
| HttpExecute.Parser.Execute | httpclient/src/http_parser.c:628-2097 | the loop with its marks is the run over the bytes, and nread counts those of the header, which never go beyond 80 kB; if they do, the fields, the return value and what the callbacks have seen, in each of the four places where it is found |
| HttpNames.NameCharRead | httpclient/src/http_parser.c:1339-1436 | the matching states and the index are a function of the name read so far |
| HttpNames.KnownNames | httpclient/src/http_parser.c:1339-1436 | a header is recognised exactly if its whole name matches |
| HttpNames.NumberCharRead | httpclient/src/http_parser.c:1585-1610 | the digit of a content length that is accepted, and exactly those that are refused |
| HttpNames.TransferCharRead | httpclient/src/http_parser.c:1612-1621 | chunked is recognised exactly, in any case and with spaces after it |
| HttpLists.ListStarts | httpclient/src/http_parser.c:1506-1518 | the first character of a Connection value |
| HttpLists.ListCharRead | httpclient/src/http_parser.c:1640-1712 | every further one: the matching state and the flags are a function of the items read so far |
| HttpLists.ListedIsTaken | httpclient/src/http_parser.c:1640-1712 | a word is taken exactly if it is the item, as long as the items before it are tokens and none breaks off inside a word |
| HttpLists.PlainList | httpclient/src/http_parser.c:1640-1712 | of a list of such items exactly the words that are listed |
| HttpMessages.ReadLine | httpclient/src/http_parser.c:1279-1790 | a header line is told as its name and value, and sets length and flags exactly if it says so, those of Connection too |
| HttpMessages.ReadLines | httpclient/src/http_parser.c:1279-1790 | any number of header lines; the last Content-Length counts, and the flags are those of all lines |
| HttpMessages.SizeDigit | httpclient/src/http_parser.c:1956-1991 | a chunk size, each digit by its place among those of either case, is exact, and refused exactly from 2^64 - 16 on |
| HttpMessages.ReadChunk | httpclient/src/http_parser.c:1940-2058 | a chunk is told as its size, its data and its end |
| HttpMessages.ReadChunkedBody | httpclient/src/http_parser.c:1792-2058 | the data of the chunks, the trailer, one message_complete at the end, and whether the connection is then kept |
| HttpResponses.ReadHead | httpclient/src/http_parser.c:1792-1886 | what is told of a header, and the state it leaves: by the length, chunked, the upgrade and the answer of the headers callback |
| HttpResponses.BodilessResponse | httpclient/src/http_parser.c:1792-1886 | a response that is complete with its header, as every one is for a callback that answers 1 |
| HttpResponses.LeftResponse | httpclient/src/http_parser.c:1865-1886 | a response that upgrades and would last until the connection ends: the parser leaves it, whatever follows |
| HttpResponses.ChunkedResponse | httpclient/src/http_parser.c:628-2097 | what the callbacks see of every response with a line that says chunked and nothing else, and whether the connection is kept |
| HttpResponses.SizedResponse | httpclient/src/http_parser.c:1888-1938 | what they see of every response that is framed by its length, and whether the connection is kept |
| HttpResponses.ResponseUntilClose | httpclient/src/http_parser.c:644-668 | what they see of a response that ends with the connection |
| HttpResponses.LineEndsBefore | httpclient/src/http_parser.c:752-772 | every CR and LF before a status line begins a message |
| HttpFraming.FramedAsRfc | httpclient/src/http_parser.c:1836-1886 | the parser frames a response as section 3.3.3 of RFC 7230 says if and only if its code and lines are of the kinds listed |
| HttpFraming.KeptByVersion | httpclient/src/http_parser.c:2124-2140 | the connection is kept as section 6.3 of RFC 7230 says for HTTP/1.1 and HTTP/1.0 |
| HttpFraming.ValidLength | httpclient/src/http_parser.c:1585-1610 | if all Content-Length lines are well-formed and agree, the parser takes the length they give |
| HttpFraming.NotModified | httpclient/src/http_parser.c:1836-1886 | a 304 with a length: the parser waits for a body |
| HttpFraming.NoContentChunked | httpclient/src/http_parser.c:1836-1886 | a 204 that says chunked: the parser waits for chunks |
| HttpFraming.GzipChunked | httpclient/src/http_parser.c:1612-1621 | gzip, chunked is not recognised: the parser reads until the connection ends |
| HttpFraming.TwoLengths | httpclient/src/http_parser.c:1585-1610 | of two lengths that differ the last is taken |
| HttpFraming.EmptyLength | httpclient/src/http_parser.c:1761-1790 | an empty Content-Length line, which is an error, is not seen |
| HttpFraming.EmptyLengthToo | httpclient/src/http_parser.c:1761-1790 | nor is it before one that gives a length |
| HttpFraming.EmptyCoding | httpclient/src/http_parser.c:1761-1790 | with an empty Transfer-Encoding line the parser still takes a length |
| HttpFraming.UpgradeLeaves | httpclient/src/http_parser.c:1865-1886 | an upgrade without a length: the parser leaves the response with its header |
| HttpFraming.SwallowedItem | httpclient/src/http_parser.c:1640-1683 | an item that breaks off inside a word swallows the comma and the item after it |
| HttpFraming.NothingBehind | httpclient/src/http_parser.c:1623-1638 | behind an item that is empty or does not begin with a token character nothing is taken |
| HttpResponses.CutNoticed | httpclient/src/http_parser.c:2083-2097 | a stream of which a cut inside a header name is noticed |
| Urls.Url.SplitParts | httpclient/src/http_parser.c:2345-2412 | the ranges of the parts by the states after every byte, stored in 16 bits, and refused exactly where a byte is out of place |
| Urls.Url.ParseHost | httpclient/src/http_parser.c:2262-2330 | the same for user information, host and port |
| UrlSyntax.PartsInPlace | httpclient/src/http_parser.c:2345-2446 | in a URL joined from parts each part stands where its field says |
| UrlForms.FormScanned | httpclient/src/http_parser.c:481-626 | a URL joined from parts, each over its own characters, is gone through by the first loop, which finds the parts |
| UrlForms.ServerScanned | httpclient/src/http_parser.c:2180-2330 | and its server part by the second, which finds user information, host and port |
| UrlForms.FieldsAreParts | httpclient/src/http_parser.c:2345-2446 | the fields of both are exactly the parts |
| UrlForms.ScannedIsForm | httpclient/src/http_parser.c:481-626 | conversely a text that both loops go through is a URL joined from such parts; in particular no number sign is in a query, and none and no question mark in a path |
| Urls.Url.Parse | httpclient/src/http_parser.c:2345-2446 | a URL is taken if and only if it is joined from valid parts and its port is a number of 16 bits, and its fields are then exactly those parts, in order, disjoint and complete; also by the states, why one is refused |
| Urls.SplitWell | httpclient/src/http_parser.c:2345-2446 | from both scans: fields in the URL, none empty, in order, and every byte in one of them or a delimiter |
| Urls.PortOfText | httpclient/src/http_parser.c:2432-2443 | the number of a port is that of its text, unless the text goes on with digits behind the URL |
| Urls.LongPath | httpclient/src/http_parser.c:2402-2412 | a path of 2^16 bytes is stored as an empty one |
| WebSocket.ParseAppend | mongoose_user/src/mongoose.c:4860-4889 | whether a frame is complete does not depend on what follows |
| WebSocket.ParseFrame | mongoose_user/src/mongoose.c:4860-4889 | parsing undoes framing, masked or not, in all three length forms |
| Octets.NumberByFirst | mongoose_user/src/mongoose.c:4872-4878 | lengths are in network order: the first octet counts most |
| Octets.NetworkOrder | mongoose_user/src/mongoose.c:4872-4878 | two and four octets written out |
| WebSocket.MaskedByBits | mongoose_user/src/mongoose.c:4884-4887 | a bit is turned over exactly if it is set in the octet of the key at the place modulo four |
| WebSocket.ParsePrefix | mongoose_user/src/mongoose.c:4860-4889 | no frame is taken before its last octet |
| WebSocket.TooLong | mongoose_user/src/mongoose.c:4880-4883 | a frame of more than 2^30 octets is never taken |
| WebSocket.ReadsDoNotMatter | mongoose_user/src/mongoose.c:4938-5024 | any cutting into reads gives the same events and the same buffer |
| WebSocket.Reassembly | mongoose_user/src/mongoose.c:4966-5020 | of a well-formed stream exactly the messages are delivered, with the flags of their first frames |
| WebSocket.MessagesAreDelivered | mongoose_user/src/mongoose.c:4938-5024 | the same, however the stream comes in |
| WsEvents.EveryFrame | mongoose_user/src/mongoose.c:4966-5000 | of any frames, exactly one pong with the same data for each ping and one empty close for each close, the handler told of exactly the control frames and continuations, and a failure for each unknown opcode, in order |
| WsEvents.EveryFrameAnswered | mongoose_user/src/mongoose.c:4938-5024 | the same, however the stream comes in, and in the middle of a frame |
| WsEvents.ExactEvents | mongoose_user/src/mongoose.c:4966-5020 | all events of a well-formed stream, in order |
| WsEvents.ExactEventsOfReads | mongoose_user/src/mongoose.c:4938-5024 | the same, however the stream comes in |
| WsConnection.IoBuf.Del | mongoose_user/src/mongoose.c:1980-1987 | what is deleted, moved down and kept |
| WsConnection.IoBuf.Process | mongoose_user/src/mongoose.c:4860-4889 | a frame is unmasked in place and nothing else changes |
| WsConnection.Connection.Strip | mongoose_user/src/mongoose.c:5002-5020 | headers of fragments stripped, frames removed, the whole message delivered |
| WsConnection.Connection.OnRead | mongoose_user/src/mongoose.c:4938-5024 | the in-place loop is the loop on sequences; the connection begins to drain exactly if a close frame was sent, and to close exactly if an opcode was unknown |
| WsConnection.HeaderIsHead | mongoose_user/src/mongoose.c:4891-4917 | mkhdr writes the header of a frame |
| WsConnection.SentIsShortest | mongoose_user/src/mongoose.c:4891-4917 | what is sent is final, with its opcode and its data, and has the shortest of the three lengths |
| WsConnection.IoBuf.WsSend | mongoose_user/src/mongoose.c:4919-4936 | a frame is appended, masked in place for a client |
| WsConnection.SentIsRead | mongoose_user/src/mongoose.c:4891-4936 | what is sent is read as that frame |
| Base64.RoundTrip | mongoose_user/src/mongoose.c:92-108 | decoding undoes encoding for all octets |
| Base64.IndexIsAlphabet | mongoose_user/src/mongoose.c:28-38 | the 64 characters of RFC 4648 |
| Base64.ReverseIsPlace | mongoose_user/src/mongoose.c:40-56 | the place in that alphabet, or the padding, or neither |
| Base64.TextIsBits | mongoose_user/src/mongoose.c:58-90 | every character is the place of its six bits of the 24 of three octets, or the padding behind the last bit |
| Base64.FourAsNumber | mongoose_user/src/mongoose.c:92-106 | what four characters are refused, and which octets of their number the others give |
| Base64.DecodedText | mongoose_user/src/mongoose.c:92-108 | a text is taken exactly if all its groups of four are, and gives their octets |
| Base64.Update | mongoose_user/src/mongoose.c:58-72 | bits that wait in the next cell become characters in turn |
| Base64.Encode | mongoose_user/src/mongoose.c:85-90 | the text, of four characters for every three octets begun |
| Base64.DecodeText | mongoose_user/src/mongoose.c:92-108 | the octets, or zero for refused text |
| CrcTable.ShiftXor | mongoose_user/src/mongoose.c:4739-4739 | the shift is linear |
| CrcTable.Entry | bin_crc_make/src/main.c:13-78 | every table entry is eight shifts of its index |
| Crc.TableIsBits | bin_crc_make/src/main.c:86-89 | a round by table is a round bit by bit |
| Crc.Crc32 | bin_crc_make/src/main.c:80-91 | the table loop computes the bitwise CRC |
| Crc.MgCrc32 | mongoose_user/src/mongoose.c:4734-4742 | so does the bit loop, from any CRC on |
| Crc.SameCrc | bin_crc_make/src/main.c:80-91 | both programs, called on the same octets, compute the same CRC |
| Crc.CrcInParts | mongoose_user/src/mongoose.c:4734-4742 | the CRC of a part continues to the CRC of the whole |
| Crc.CrcOfWhole | bin_crc_make/src/main.c:141-167 | octets with their CRC appended have the CRC 0x2144df1c |
| Crc.CheckValue | mongoose_user/src/mongoose.c:4734-4742 | the CRC of the digits 1 to 9 is 0xcbf43926 |
| LinuxList.ListAdd | linux_kenel_list/src/linux_kenel_list.h:98-101 | first in the list, the ring intact |
| LinuxList.ListAddTail | linux_kenel_list/src/linux_kenel_list.h:112-115 | last in the list |
| LinuxList.ListDel | linux_kenel_list/src/linux_kenel_list.h:142-147 | the list without the entry |
| LinuxList.ListReplace | linux_kenel_list/src/linux_kenel_list.h:160-167 | the new node in the old one's place, also for the head of an empty list |
| LinuxList.ListMove | linux_kenel_list/src/linux_kenel_list.h:192-196 | the entry becomes the first |
| LinuxList.ListMoveTail | linux_kenel_list/src/linux_kenel_list.h:203-208 | the entry becomes the last |
| LinuxList.ListRotateLeft | linux_kenel_list/src/linux_kenel_list.h:253-262 | the first becomes the last |
| LinuxList.ListCutPosition | linux_kenel_list/src/linux_kenel_list.h:299-311 | splits at the entry, and what happens in the cases where it does not |
| LinuxList.ListSplice | linux_kenel_list/src/linux_kenel_list.h:332-337 | the whole sequence at the head |
| LinuxList.ListSpliceTail | linux_kenel_list/src/linux_kenel_list.h:344-349 | the whole sequence at the tail |
| LinuxList.ListSpliceInit | linux_kenel_list/src/linux_kenel_list.h:358-366 | the same, and the source list empty |
| LinuxList.CutAndSplice | linux_kenel_list/src/linux_kenel_list.h:299-366 | cutting and splicing back restores the list |
| Rings.RotatedRing | linux_kenel_list/src/linux_kenel_list.h:62-66 | a ring is a ring from each of its nodes |
| DlList.DlListAdd | eloop/src/list.h:28-34 | after any node of a ring |
| DlList.DlListDel | eloop/src/list.h:41-47 | the list without the item |
| Timeouts.DeadlineIsAsked | eloop/src/eloop.c:687-703 | the deadline in microseconds, and exactly which are taken to be infinite |
| Timeouts.DeadlineNormal | eloop/src/eloop.c:687-703 | exactly when a deadline is in range, and that it is then not in the past |
| Timeouts.DeadlineInThePast | eloop/src/eloop.c:687-709 | exactly when a deadline is in the past, in the order of the list and in microseconds |
| Timeouts.InsertKeepsSorted | eloop/src/eloop.c:711-721 | sorted by deadline, ties in the order of registration |
| Timeouts.CancelKeepsSorted | eloop/src/eloop.c:735-753 | cancelling keeps the order |
| Timeouts.Answers | eloop/src/eloop.c:799-860 | what deplete and replenish answer, in microseconds |
| Timeouts.DepleteShortens | eloop/src/eloop.c:799-860 | exactly when depleting acts if and only if it shortens, and replenishing if and only if it prolongs, for all microseconds and for two readings of the clock |
| Timeouts.DepleteAtOnce | eloop/src/eloop.c:799-860 | the same when the clock does not move between the two readings |
| Timeouts.DepleteInRange | eloop/src/eloop.c:799-860 | below a second of microseconds they compare rightly, and what the clock moves in between is all that can differ |
| Timeouts.DepleteLengthens | eloop/src/eloop.c:799-828 | and not always above: a timeout of one second depleted to five |
| Timeouts.DepleteForEver | eloop/src/eloop.c:799-828 | depleting to 2^31 seconds or more cancels the timeout and answers 1 |
| Timeouts.NeverEarly | eloop/src/eloop.c:1043-1057 | over any run, whatever the clock does, nothing fires before its deadline |
| Timeouts.FiredInOrder | eloop/src/eloop.c:1043-1057 | over any run with a monotone clock and orderly requests the deadlines fired never decrease |
| Timeouts.OrderLost | eloop/src/eloop.c:699-721 | for every other request some run with a monotone clock fires a deadline after a later one |
| Timeouts.RunKeepsSorted | eloop/src/eloop.c:673-860 | over any run, whatever the clock and the requests, the list stays sorted |
| Firing.DueAtDeadline | eloop/src/eloop.c:1043-1057 | a check fires the first timeout if and only if the clock has reached its deadline, in microseconds |
| Firing.WaitsUntilDue | eloop/src/eloop.c:980-1003 | select waits exactly until the first deadline is due |
| Firing.DueAreFirst | eloop/src/eloop.c:1043-1057 | in a sorted list the timeouts that are due are those at its head |
| Firing.DueAreFired | eloop/src/eloop.c:1043-1057 | as many checks as there are deadlines up to now fire exactly those timeouts, each once, in the order of the list |
| Firing.FiredOnce | eloop/src/eloop.c:673-1057 | over any run a timeout that is neither cancelled nor depleted nor replenished is fired exactly once if a check finds it first and due, and is still there otherwise |
| Firing.Registered | eloop/src/eloop.c:673-723 | a registration adds one timeout, due when it was asked for, and changes no other |
| Firing.DepleteAndReplenish | eloop/src/eloop.c:799-860 | both leave the list alone, or move the timeout to the deadline asked for |
| Firing.CancelledOne | eloop/src/eloop.c:756-780 | one timeout goes, and what was left of it is said in microseconds |
| Firing.CancelledAll | eloop/src/eloop.c:735-753 | exactly the timeouts of the handler and the data go, where ELOOP_ALL_CTX stands for any data |
| Firing.FirstOfKind | eloop/src/eloop.c:756-780 | which timeout is meant: the first with the same handler and the same data |
| Eloop.EloopData.RegisterTimeout | eloop/src/eloop.c:673-723 | the traversal puts the node at the place of its deadline, and success is reported also when nothing is registered |
| Eloop.EloopData.CancelTimeout | eloop/src/eloop.c:735-753 | the safe traversal removes exactly the matching timeouts |
| Eloop.EloopData.CancelTimeoutOne | eloop/src/eloop.c:756-780 | removes the first one of its kind and says what was left |
| Eloop.EloopData.DepleteTimeout | eloop/src/eloop.c:799-828 | the deplete operation on the list |
| Eloop.EloopData.ReplenishTimeout | eloop/src/eloop.c:831-860 | the replenish operation on the list |
| Eloop.EloopData.CheckTimeout | eloop/src/eloop.c:1043-1057 | the check of the loop, on the list: the first timeout is fired if it is due |

## Left out

- Memory: allocation failure, capacities and reallocation of bigints and of iobufs, krypton's free list and reference counts. Every bigint belongs to its caller.
- Limb counts and sizes beyond the C types that hold them, except where the model says so.
- Division.Divide: a divisor whose top limb is 0xFFFFFFFF is excluded, because the source then divides by zero.
- Crt.BiCrt: a context whose p an earlier call has left padded is not covered, because its powers can then pass long products to `bi_divide` with a divisor that has a leading zero. Also without a result where a padded modulus would be given to `bi_divide`, which needs a qInv longer than p by more than a limb.
- PaddedModulus.ReducePadded: only for numbers of at most twice the limbs of the padded modulus, as in Barrett's reduction.
- Code that is compiled out of krypton: Karatsuba, Montgomery, the sliding window; and everything of TLS, X.509, AES, RC4 and MD5.
- The compression functions of SHA-1 and SHA-256, which are parameters, and the byte order of the digest.
- JsonObjects.JsonObject.Add: a table of 2^31 cells does not grow, because with 2^32 cells the source's loop over them would not end.
- json_object_clear, parent pointers, comments and files in parson. Number text is an abstract printer and reader that undo each other; in the grammar of JsonGrammar a number is whatever that reader makes of a text that begins with a minus or a digit.
- parson's reader builds objects as keys and values in order, which is what the contract of the object table gives.
- HttpExecute.Parser.Execute: nread after any other error is not stated; the parser does not use it again.
- The request half of http_parser, paused parsers and callbacks that fail. An empty header value leaves no trace in the recorded callbacks.
- Urls.Url.Parse: nothing is promised of URLs of 2^16 bytes or more, whose places do not fit.
- Obsolete line folding is part of the byte and run theorems and of HttpLanguage, but not of the header lines of HttpMessages.
- HttpLanguage.HeadLanguage: not said of the trailer behind a chunked body, whose lines are those of HttpMessages.
- mongoose's handshake, timers and sockets; the other codecs of mongoose.
- What handlers of eloop do besides registering and cancelling timeouts; its socket tables and signals; select itself.
- hlist, the list macros that only traverse, and dllist.h.
- Pointers from an embedded node back to its record: the record is part of the node.
