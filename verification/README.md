# fpd, verified

A Dafny model of fpd, a tool that recognises HTTPS clients by what they send before any content: the TLS ClientHello, the
HTTP/2 preamble and the header list. The model covers the logic that has to be right for every input a client can send,
and for every way concurrent tasks can interleave.

Run `dafny verify dfyconfig.toml` in this directory.

## What is proved

**The HPACK codec** (RFC 7541). `HuffmanCode` is the theory of complete prefix codes, for any table; `HuffmanTable` shows
that the table of Appendix B is one, by a tiling of [0, 2^30) checked in linear size. `HuffmanEncoder` and
`HuffmanDecoder` verify the bit-packing loop and the tree walk, `HuffmanTree` the construction of the tree in a growing
vector; together they are a bijection between strings and accepted inputs. `Integers` gives the prefix integer codec with
the exact bound of its round trip. `HeaderTables` is the evicting dynamic table as a mutable class over an abstract list.
`HpackDecoder` and `HpackEncoder` are the block decoder and encoder with the header list round trip from any state, and
`HpackGrammar` shows that the one-pass decoder refines a two-phase reading, and `HpackFraming` that representations are
self-delimiting, so that blocks can be decoded one behind another. `HpackReading` says what octets do, one representation
at a time; with `StaticEntries`, `Spellings` and `RfcStrings` it leads to `RfcExamples`, the worked examples of Appendix C
from the octets to the header lists.

**The closed loop.** `H2Frames`, `H2Fields`, `HttpLayer` and `Akamai` read a preamble into a fingerprint; `Profiles` makes
profiles from observations and compares them; `Emission` writes the preamble of a profile. `TextHeaders` shows that what
the decoder yields is text, and `ClosedLoop` that what is emitted, read by the same parser, matches the profile it came
from. `H2Reading` and `ProfileReading` say what the results mean without the functions that compute them: the fields by
their octets, the texts by cutting them apart and reading the numerals (`NumeralReading`). `EmittedValues` does so for the
emitted request, and `KnownPreamble` follows the octets of one browser all the way.

**The ClientHello.** `ClientHello` is the walk with nested cursors, proved against the layout by absolute offset;
`HelloSpans` says what the spans promise and what the walk depends on. `HelloWriting` goes the other way: any extensions,
and any order of those captured, are what some captured buffer parses to, and `HelloRecords` writes a whole record field
by field and reads it back. `HelloReading` reads the extensions by their octets and the fingerprints by their characters,
and `KnownHello` puts the two ends together. `Ja4` and `Ja3` say what the fingerprints tell
apart, and `Ja4Stability` exactly when JA4 does not tell two connections of one client apart.

**The admin feed.** `ConnectionLog` is the bounded history, `AdminFeed` the per-client loop, and `FeedProtocol` the state
machine over all interleavings, with safety over every run and the exact condition under which no record is lost.
`Viewer` is the receiving end, and `ViewerFeed` says what it can tell of the records it was never sent.

**Byte streams.** `Streams` are the replaying and recording adapters, `Capture` the preamble capture loop, and `Base64` the
two halves of the encoding the feed carries octets in.

## How the code is modelled

- Octets are integers below 256 and text is octets. Integers are unbounded; a width is a subset type, and a shift on a
  word is a multiplication followed by a remainder, so the accumulators' discarded high bits are there.
- Loops over mutable state are methods with loops, proved against functions; the dynamic table, the cursor, the log, the
  streams and the viewer's state are classes. Chains of maps and filters are functions.
- The Huffman table, the static table and the lossy conversion of octets to text are parameters of the codec (`Tables`).
  Text is what the conversion leaves alone, which for the conversion to UTF-8 is UTF-8. `TextHeaders.Converts` lists what
  is assumed of the conversion: it is idempotent, it leaves ASCII alone, and text in lower case is text. `RfcTables`
  supplies the real tables.
- SHA-256, MD5 and the UTF-8 test of an ALPN name are arbitrary functions (`Outside`).
- A viewer's search is an arbitrary predicate on rows.
- The size of a read, what has arrived, the order of steps and the moment a deadline passes or a connection ends are
  parameters, so the theorems hold for every choice of them.
- `Locks` holds a device that keeps a definition out of proofs that only pass it along.

## Where the code says less than its comments

- Integers: the decoder rejects a tenth continuation octet, so integers from the prefix maximum plus 2^63 on do not round
  trip, although the encoder writes them (`Integers.IntegerRoundTrip`).
- Frames: a payload of 2^24 octets or more is written with a truncated length (`H2Frames.FrameReadBack`).
- The emitted preamble has no PRIORITY frames, so a client that sends some is not reproduced in its Akamai string
  (`ClosedLoop.LoopCloses`).
- The feed's comment says a record is delivered rather than lost. Two concurrent pushes can send in the other order than
  they were numbered, and then the earlier record is skipped (`FeedProtocol.OutOfOrderLoses`,
  `FeedProtocol.NothingIsLostIff`).
- A partial capture is said to be worth parsing. It parses exactly when everything that arrived before the deadline does
  and no frame is above the limit (`Capture.CapturedPreamble`); a deadline behind a frame header loses the frames before
  it too, even when the payload is still to come (`Capture.CutCaptureIsLost`).
- The captured octets are said to be handed back. They make up all that is sent exactly when no read came up short
  (`Capture.ReplayIsWhole`). Otherwise the octets of the read that the deadline cut off are gone, and the connection goes
  on behind the hole (`Capture.ReplayIsFront`, `Capture.DeadlineLeavesHole`).
- The viewer's flag is there to show that records are missing. It shows exactly those missing between its first and its
  last row (`ViewerFeed.FlagTells`), and so not one lost before the first (`ViewerFeed.FlagMisses`).
- JA4 reads the first extension of each kind only. It is stable under every order exactly for the clients whose ALPN,
  signature algorithm and version extensions read alike when sent more than once (`Ja4Stability.OrderNeverShowsIff`); for
  others the order shows (`Ja4Stability.OrderOfDuplicatesShows`).
- A client without a protocol is shown as `none` and compared as shown, so one that offers a protocol of that name is not
  told from it (`ProfileReading.SameProtocol`).
- Every hash is said to normalise GREASE. JA4 keeps it among the signature algorithms, so GREASE there shows
  (`Ja4Stability.GreaseAlgorithmShows`); two JA4s agree exactly when those lists do, GREASE included
  (`Ja4Stability.SigAlgsDecide`).

## Model

| member | source | states |
|---|---|---|
| `HuffmanTable.RfcTableIsCode` | crates/fingerprint-h2/src/hpack/table_huffman.rs:13-271 | The 257-row table is a complete prefix-free code and its end-of-string word is thirty ones: left-aligned to thirty bits the words lie end to end from 0 to 2^30. |
| `HuffmanTable.RfcTableIsCanonical` | crates/fingerprint-h2/src/hpack/table_huffman.rs:13-271 | The table is canonical: read from the left as numbers, shorter words come before longer ones, and words of one length are in the order of their symbols, so the lengths alone determine it. |
| `HuffmanTable.Lengths32To63` | crates/fingerprint-h2/src/hpack/table_huffman.rs:46-77 | The lengths of the words of 0x20 to 0x3f, written out; there is such a statement for every run of 32 symbols. |
| `RfcStrings.WwwIsCoded` | crates/fingerprint-h2/src/hpack/encode.rs:41-64 | The Huffman code of `www.example.com`, octet by octet, is the one in section C.4.1 of RFC 7541; likewise for every other string of sections C.4 and C.6. |
| `HuffmanEncoder.EncodeHuffman` | crates/fingerprint-h2/src/hpack/encode.rs:41-64 | The loop over a 64-bit accumulator that is shifted and never masked writes exactly the code words of the input followed by ones up to the octet boundary. |
| `HuffmanTree.Build` | crates/fingerprint-h2/src/hpack/huffman.rs:21-54 | The node vector built from a complete prefix code is a full tree: no slot is unset, and a walk from the root ends in the terminal of a symbol exactly when the bits walked are that symbol's word. |
| `HuffmanTree.FinishedTree` | crates/fingerprint-h2/src/hpack/huffman.rs:89-109 | Once every word is in, each slot of each node leads to the node one bit further or holds the terminal of the word spelled, so the decoder's error for an unset slot never arises. |
| `HuffmanDecoder.Decode` | crates/fingerprint-h2/src/hpack/huffman.rs:72-117 | Building the tree and walking it bit by bit, with the end-of-string and padding rules, gives the string whose encoding the input is, and an error when there is none. |
| `HuffmanDecoder.DecodeWith` | crates/fingerprint-h2/src/hpack/huffman.rs:76-116 | The octet and bit loops compute the walk of the tree over all bits and then apply the padding rule. |
| `HuffmanDecoder.WalkDecodes` | crates/fingerprint-h2/src/hpack/huffman.rs:62-117 | Walking a finished tree with the padding rule is the inverse of encoding, on every input. |
| `HuffmanDecoder.DecodeInvertsEncode` | crates/fingerprint-h2/src/hpack/huffman.rs:62-117 | An input decodes to a string if and only if the string encodes to that input, so end-of-string symbols, more than seven bits of padding and padding with a zero are all rejected. |
| `HuffmanDecoder.WalkRejects` | crates/fingerprint-h2/src/hpack/huffman.rs:72-117 | Walking a finished tree with the padding rule fails, and then with the Huffman error, if and only if no string has the input as its encoding. |
| `HuffmanDecoder.HuffmanRoundTrip` | crates/fingerprint-h2/src/hpack/encode.rs:41-64 | Every octet string decodes from its own encoding. |
| `HuffmanDecoder.EosIsNoEncoding` | crates/fingerprint-h2/src/hpack/huffman.rs:97-99 | Once the end-of-string symbol has been read, no string has the input as its encoding. |
| `HuffmanDecoder.DecodedLength` | crates/fingerprint-h2/src/hpack/huffman.rs:74 | A decoded string is at most 8/5 the length of its encoding, the capacity reserved for it. |
| `HuffmanCode.HuffmanInjective` | crates/fingerprint-h2/src/hpack/encode.rs:38-64 | Two strings with the same encoding are the same string, padding included. |
| `HuffmanCode.ReadingsAgree` | crates/fingerprint-h2/src/hpack/huffman.rs:80-111 | Bits that start with a fully read list of symbols cannot be read as any other list: unique decodability of the code. |
| `Integers.EncodeInteger` | crates/fingerprint-h2/src/hpack/encode.rs:19-36 | The loop writes the prefix octet and the little-endian continuation of the remainder. |
| `Integers.Decode` | crates/fingerprint-h2/src/hpack/integer.rs:15-48 | The loop with its shift bound and checked addition computes the prefix integer and the octets used; the shift never overflows the word it is applied to. |
| `Integers.DecodeIntegerMeans` | crates/fingerprint-h2/src/hpack/integer.rs:15-48 | On every input: a prefix width outside 1 to 8 is rejected and an empty buffer truncated; otherwise the value is the prefix, or the prefix maximum plus the little-endian continuation when that ends within nine octets, so a success takes at most ten; otherwise truncated if the buffer ends first, else rejected. |
| `Integers.IntegerRoundTrip` | crates/fingerprint-h2/src/hpack/integer.rs:34-37 | Decoding an encoded integer followed by anything gives it back with its encoded length if and only if it is below the prefix maximum plus 2^63; a larger one is rejected. |
| `HeaderTables.DynamicTable.Insert` | crates/fingerprint-h2/src/hpack/table.rs:67-81 | Inserting leaves the abstract table with the entry in front and the oldest evicted, or empty when the entry is larger than the table; the recorded size stays the sum of the costs. |
| `HeaderTables.DynamicTable.SetMaxSize` | crates/fingerprint-h2/src/hpack/table.rs:60-65 | The limit is clamped to 2^20 and the table evicted to fit it. |
| `HeaderTables.DynamicTable.EvictToFit` | crates/fingerprint-h2/src/hpack/table.rs:83-95 | The loop pops from the old end until the size fits; it never finds the table empty too soon and its saturating subtraction never saturates. |
| `HeaderTables.FitIsLongest` | crates/fingerprint-h2/src/hpack/table.rs:83-95 | Eviction keeps a prefix of the newest-first list that fits, and every longer prefix does not. |
| `HeaderTables.InsertMakesRoomFirst` | crates/fingerprint-h2/src/hpack/table.rs:78-80 | Adding and then evicting equals evicting to make room and then adding, as section 4.4 of RFC 7541 prescribes. |
| `HeaderTables.RunIsSound` | crates/fingerprint-h2/src/hpack/table.rs:60-95 | Over every run of insertions and size updates the size is within the limit, the limit within 2^20, and the entries are the most recent insertions in order without a gap. |
| `HeaderTables.Lookup` | crates/fingerprint-h2/src/hpack/table.rs:102-121 | An index resolves exactly when it is between 1 and the static length plus the dynamic length, to the entry at that place of the two tables in a row; otherwise the error names the index. |
| `HpackDecoder.DecodeString` | crates/fingerprint-h2/src/hpack/decoder.rs:99-121 | A string literal: the length bound, truncation, the Huffman flag and the lossy conversion. |
| `HpackDecoder.DecodeLiteral` | crates/fingerprint-h2/src/hpack/decoder.rs:74-95 | A literal: an index into the tables or an inline name, then a value. |
| `HpackDecoder.DecodeRepresentation` | crates/fingerprint-h2/src/hpack/decoder.rs:38-67 | The five-way dispatch on the first octet, and what it does to the mutable table, is the step of the specification. |
| `HpackDecoder.Decode` | crates/fingerprint-h2/src/hpack/decoder.rs:29-71 | The loop over positions with a mutable table decodes the whole block as the recursive specification does, and yields at most 512 headers. |
| `TextHeaders.DecodedIsText` | crates/fingerprint-h2/src/hpack/decoder.rs:99-121 | Every name and value of a decoded block is text, from any table of text, whatever octets the block holds. |
| `HpackGrammar.StepsAgree` | crates/fingerprint-h2/src/hpack/decoder.rs:38-67 | One step of the decoder is parsing one representation without the tables and then applying its meaning to them. |
| `HpackGrammar.DecoderRefinesGrammar` | crates/fingerprint-h2/src/hpack/decoder.rs:29-71 | The one-pass decoder refines the two-phase reading of section 6 of RFC 7541, from any table and count: cut the whole block into representations of at least one octet each, then fold them over the table; the same headers, or an error on both sides. |
| `HpackFraming.RepresentationIsLocal` | crates/fingerprint-h2/src/hpack/decoder.rs:38-67 | A representation that decodes is decoded the same, to the same octets used, whatever octets follow it. |
| `HpackFraming.BlocksShareTheTable` | crates/fingerprint-h2/src/hpack/decoder.rs:29-71 | Decoding one block behind another is exactly decoding the first and then the second with the table and header count the first left behind. |
| `HpackEncoder.FindExact` | crates/fingerprint-h2/src/hpack/encode.rs:85-90 | The one-based index of the first static entry equal to the header, or none when there is none. |
| `HpackEncoder.FindName` | crates/fingerprint-h2/src/hpack/encode.rs:93-98 | The one-based index of the first static entry with the name, or none when there is none. |
| `HpackEncoder.EncodeString` | crates/fingerprint-h2/src/hpack/encode.rs:69-82 | A string literal, Huffman coded exactly when that is strictly shorter. |
| `HpackEncoder.EncodeHeaders` | crates/fingerprint-h2/src/hpack/encode.rs:103-122 | The loop writes the block of the list, header by header in order. |
| `HpackEncoder.StringRoundTrip` | crates/fingerprint-h2/src/hpack/decoder.rs:99-121 | An encoded text followed by anything is read back with its length when what is sent is at most 65536 octets, and rejected otherwise. |
| `HpackEncoder.HeaderRoundTrip` | crates/fingerprint-h2/src/hpack/encode.rs:106-119 | One encoded header in front of anything, decoded in any dynamic table, comes back with exactly its octets used, or is rejected for a literal beyond the length bound. |
| `HpackEncoder.BlockRoundTrip` | crates/fingerprint-h2/src/hpack/encode.rs:103-122 | From any dynamic table, any count and with any block behind it: the encoded list comes back in order and decoding goes on behind it, or the whole is rejected. |
| `HpackEncoder.HeaderListRoundTrip` | crates/fingerprint-h2/src/hpack/encode.rs:103-122 | A list of text headers decodes from its encoding, order kept, if and only if it has at most 512 headers and every literal string is within the decoder's bound as sent; otherwise the block is rejected. |
| `StaticEntries.Statics1To8` | crates/fingerprint-h2/src/hpack/table_static.rs:7-14 | What indices 1 to 8 of the static table stand for, name and value written out. |
| `StaticEntries.Statics9To16` | crates/fingerprint-h2/src/hpack/table_static.rs:15-22 | The same for indices 9 to 16. |
| `StaticEntries.Statics17To24` | crates/fingerprint-h2/src/hpack/table_static.rs:23-30 | The same for indices 17 to 24. |
| `StaticEntries.Statics25To32` | crates/fingerprint-h2/src/hpack/table_static.rs:31-38 | The same for indices 25 to 32. |
| `StaticEntries.Statics33To40` | crates/fingerprint-h2/src/hpack/table_static.rs:39-46 | The same for indices 33 to 40. |
| `StaticEntries.Statics41To48` | crates/fingerprint-h2/src/hpack/table_static.rs:47-54 | The same for indices 41 to 48. |
| `StaticEntries.Statics49To56` | crates/fingerprint-h2/src/hpack/table_static.rs:55-62 | The same for indices 49 to 56. |
| `StaticEntries.Statics57To61` | crates/fingerprint-h2/src/hpack/table_static.rs:63-67 | The same for indices 57 to 61. |
| `StaticEntries.OneOctet` | crates/fingerprint-h2/src/hpack/decoder.rs:41-45 | The block of one octet 0x80 + i is the header at index i of the static table. |
| `HpackReading.NamedDoes` | crates/fingerprint-h2/src/hpack/decoder.rs:46-51 | In front of anything, an octet 0x40 + i and a string are the header with the name at index i and that value, and the table grows by it. |
| `HpackReading.InlineDoes` | crates/fingerprint-h2/src/hpack/decoder.rs:46-51 | In front of anything, an octet 0x40 and two strings are the header they name, and the table grows by it. |
| `HpackReading.UnindexedNamedDoes` | crates/fingerprint-h2/src/hpack/decoder.rs:57-66 | In front of anything, an octet below 0x20 with an index in its lower half and a string are a header, and the table stays. |
| `HpackReading.ResizingDoes` | crates/fingerprint-h2/src/hpack/decoder.rs:52-56 | In front of anything, three octets from 0x3f on are no header, and the table shrinks to the size they give. |
| `HpackReading.AddedForOldest` | crates/fingerprint-h2/src/hpack/table.rs:67-95 | An entry that does not fit displaces the oldest ones, and no more of them than it must. |
| `HpackReading.LiteralIsWritten` | crates/fingerprint-h2/src/hpack/encode.rs:106-119 | A header that is not in the static table is written as an octet 0x40 plus the first index of its name and its value, or as 0x40, its name and its value. |
| `HpackReading.IndexedIsWritten` | crates/fingerprint-h2/src/hpack/encode.rs:85-108 | A header of the static table is written as 0x80 plus the first index it is at. |
| `RfcExamples.RequestsAreRead` | crates/fingerprint-h2/src/hpack/decoder.rs:127-143 | The octets of sections C.3.1 to C.3.3 of RFC 7541, as one block, decode with the codec's own tables to the three header lists given there. |
| `RfcExamples.HuffmanRequestsAreRead` | crates/fingerprint-h2/src/hpack/decoder.rs:146-165 | The octets of sections C.4.1 to C.4.3 do too. |
| `RfcExamples.ResponsesAreRead` | crates/fingerprint-h2/src/hpack/decoder.rs:29-71 | The octets of sections C.5.1 to C.5.3, behind a size update to 256, decode to the three header lists given there, through every eviction. |
| `RfcExamples.HuffmanResponsesAreRead` | crates/fingerprint-h2/src/hpack/decoder.rs:29-71 | The octets of sections C.6.1 to C.6.3 do too. |
| `RfcExamples.UnindexedAreRead` | crates/fingerprint-h2/src/hpack/decoder.rs:57-66 | The octets of sections C.2.2 and C.2.3 decode to the headers given there. |
| `RfcTables.CodecRoundTrip` | crates/fingerprint-h2/src/hpack/encode.rs:103-122 | The header list round trip for the codec with its own tables. |
| `Readers.Reader.Take` | crates/fingerprint-core/src/reader.rs:42-47 | The next octets of the outer buffer at the cursor, or an error that does not move it. |
| `Readers.Reader.U16` | crates/fingerprint-core/src/reader.rs:53-59 | Two octets in network byte order. |
| `Readers.Reader.U24` | crates/fingerprint-core/src/reader.rs:62-70 | Three octets in network byte order. |
| `H2Frames.ParsePreamble` | crates/fingerprint-h2/src/frame.rs:41-74 | The cursor loop reads the preface and the frames up to the first HEADERS frame or fewer octets than a frame header; the reserved bit is dropped. |
| `H2Frames.EmitFrame` | crates/fingerprint-emulate/src/h2.rs:32-44 | The 24 low bits of the length, kind, flags, the stream identifier without its reserved bit, and the payload. |
| `H2Frames.FrameReadBack` | crates/fingerprint-emulate/src/h2.rs:32-44 | A written frame followed by anything is read back if and only if its payload is below 2^24 octets and its stream identifier below 2^31. |
| `H2Reading.FrameReads` | crates/fingerprint-h2/src/frame.rs:51-72 | A frame octet by octet: three of length, the kind, the flags, four of stream less the top bit, then the payload. |
| `H2Frames.FramesReadBack` | crates/fingerprint-h2/src/frame.rs:49-72 | Frames of which only the last is HEADERS are read back whatever follows them. |
| `H2Fields.SettingsPairs` | crates/fingerprint-h2/src/settings.rs:19-35 | The nested loops collect the pairs of all well-formed SETTINGS frames in wire order; a payload of another length contributes nothing. |
| `H2Reading.PairsRead` | crates/fingerprint-h2/src/settings.rs:27-33 | Setting i of a payload has the first two of its six octets as identifier and the other four as value. |
| `H2Reading.WindowReads` | crates/fingerprint-h2/src/settings.rs:38-47 | The increment is that of the first frame of kind 8, less the top bit, and there is none when it has fewer than four octets. |
| `H2Reading.PriorityFrameReads` | crates/fingerprint-h2/src/settings.rs:51-66 | A frame of kind 2 and at least five octets is a priority: stream, exclusive bit, parent below it, and the last octet plus one as weight. |
| `H2Fields.HeaderBlockFragment` | crates/fingerprint-h2/src/headers.rs:31-55 | The stepwise slicing gives the part behind the pad length and priority fields and before the padding, or nothing when they do not fit. |
| `H2Fields.FragmentOfLaid` | crates/fingerprint-h2/src/headers.rs:15-30 | The fragment of a payload laid out by section 6.2 of RFC 7540, padded or not, with priority or not, is the fragment laid out. |
| `HttpLayer.FromHeaders` | crates/fingerprint-h2/src/http.rs:64-107 | The loop computes the lower-case regular names in order, their comparable count, whether accept-language and referer are among them, how many cookie headers there are, and the last method. |
| `H2Reading.HttpReads` | crates/fingerprint-h2/src/http.rs:64-107 | The names are those of the headers that neither start with a colon nor with `x-fp-`, in lower case and in order; the count leaves out `cookie` and `referer`; the cookies are counted, `referer` and `accept-language` are told by their presence, and the method is the value of the last header of that name. |
| `H2Reading.OrderReads` | crates/fingerprint-h2/src/headers.rs:93-107 | Cut at the commas, the order has the letter m, a, s or p for each `:method`, `:authority`, `:scheme` and `:path` sent, in the order in which they were sent. |
| `HttpLayer.ValuesAreNotRead` | crates/fingerprint-h2/src/http.rs:10-14 | Two header lists with the same names and method values have the same HTTP profile: no other value is read. |
| `HttpLayer.AddedHeaderIsNotCompared` | crates/fingerprint-h2/src/http.rs:25-36 | Adding a cookie, a referer or a header in the program's own namespace anywhere changes none of the compared fields. |
| `Akamai.DecodeHeaders` | crates/fingerprint-h2/src/headers.rs:62-85 | The headers of a HEADERS frame; none without END_HEADERS or when the block is malformed. |
| `Akamai.Fingerprint` | crates/fingerprint-h2/src/akamai.rs:57-90 | The fingerprint is put together from one walk over the frames, and is the fingerprint that the lemmas below read. |
| `H2Reading.AkamaiReads` | crates/fingerprint-h2/src/akamai.rs:29-77 | Cut at the bars, the Akamai string of any preamble is four parts: at the semicolons and the colons the numerals of each identifier and then of its value; the numeral of the increment or zero; at the commas and the colons the stream, the exclusive bit, the parent and the weight of each priority, or a lone zero; and the order of the pseudo-headers. |
| `KnownPreamble.BrowserIsFingerprinted` | crates/fingerprint-h2/src/akamai.rs:57-90 | The octets of a browser's preamble, whatever follows them, are fingerprinted as its four settings, its increment, no priorities and its header list in the order m,a,s,p. |
| `Akamai.SettingsInjective` | crates/fingerprint-h2/src/akamai.rs:29-35 | Two settings lists with the same rendering are the same list. |
| `Akamai.PrioritiesInjective` | crates/fingerprint-h2/src/akamai.rs:39-55 | Two priority lists with the same rendering are the same list; the lone zero stands for none only. |
| `Akamai.AkamaiInjective` | crates/fingerprint-h2/src/akamai.rs:71-77 | Two fingerprints have the same Akamai string if and only if settings, increment (an absent one reading as zero), priorities and pseudo-header order all agree. |
| `ClientHello.ParseHello` | crates/fingerprint-core/src/hello.rs:40-122 | The three nested cursors compute the walk over the captured buffer that the lemmas below describe, errors included. |
| `HelloRecords.AnyHelloIsRead` | crates/fingerprint-core/src/hello.rs:40-122 | For every version, 32 random octets, session identifier, ciphers, compression methods and extensions that fit a record: the record that writes them in this order, each list behind its length, parses to exactly these, with the spans that follow from the lengths, whatever octets follow it. |
| `HelloRecords.HelloWithoutBlockIsRead` | crates/fingerprint-core/src/hello.rs:81-93 | A record that ends behind the compression methods, or one octet later, parses to no extensions. |
| `ClientHello.ParseExtensions` | crates/fingerprint-core/src/hello.rs:95-112 | The extension loop, with each span taken before the identifier and length are read. |
| `HelloSpans.ExtensionsTile` | crates/fingerprint-core/src/hello.rs:95-112 | The walk accepts an extensions block with a list of extensions if and only if they tile it: end to end from its start, each span covering identifier, length and body, leaving at most three octets. |
| `HelloSpans.SpansAreRight` | crates/fingerprint-core/src/hello.rs:40-122 | For every accepted buffer all spans lie in the record, the cipher span decodes to the ciphers, and the extensions tile the extensions block, which follows the ciphers. |
| `HelloSpans.ExtensionSpansSlice` | crates/fingerprint-core/src/hello.rs:20-22 | Slicing the captured buffer with an extension's span gives its identifier, its length and its body. |
| `HelloSpans.OnlyTheRecordMatters` | crates/fingerprint-core/src/hello.rs:43-51 | Octets behind a complete record change nothing, whether it is accepted or rejected. |
| `HelloSpans.PrefixIsTruncated` | crates/fingerprint-core/src/hello.rs:43-51 | Every prefix that stops short of the record's end fails as truncated. |
| `HelloSpans.RetainedHello` | crates/fingerprint-probe/src/probe.rs:40-48 | What is kept of an accepted buffer parses to the same hello when the record is at most 8192 octets, and fails as truncated otherwise. |
| `HelloWriting.ExtensionsReadBack` | crates/fingerprint-core/src/hello.rs:95-112 | Extensions written end to end are walked back to exactly those, wherever they start and with up to three octets behind them. |
| `HelloWriting.AnyExtensionsAreCaptured` | crates/fingerprint-core/src/hello.rs:40-122 | Every list of extensions that fits a record is what some captured buffer, which is constructed, parses to. |
| `HelloWriting.AnyOrderIsCaptured` | crates/fingerprint-core/src/hello.rs:40-122 | Whatever buffer is accepted, every rearrangement of its extensions is what some captured buffer parses to, everything else being the same. |
| `Extensions.GreaseValues` | crates/fingerprint-core/src/grease.rs:8-12 | The bit test accepts exactly the sixteen reserved values of RFC 8701. |
| `Extensions.Positions` | crates/fingerprint-core/src/grease.rs:21-27 | Exactly the positions of GREASE values, so positions and stripped values add up to the whole list. |
| `Extensions.ReadAlpn` | crates/fingerprint-core/src/ext.rs:25-35 | The first protocol of the first ALPN extension, when its lengths fit and it is text. |
| `Extensions.ReadSigAlgs` | crates/fingerprint-core/src/ext.rs:38-58 | The signature algorithms of the first such extension in wire order; none when the length does not fit. |
| `Extensions.ReadPointFormats` | crates/fingerprint-core/src/ext.rs:64-74 | The point formats of the first such extension; none when the length does not fit. |
| `Extensions.ReadVersion` | crates/fingerprint-core/src/ext.rs:78-94 | The loop over the offered versions computes the version that the lemmas below describe. |
| `HelloReading.VersionReads` | crates/fingerprint-core/src/ext.rs:78-94 | By the octets of the first supported_versions extension: the greatest pair behind the length octet that is not GREASE; the legacy field when there is no such extension, when the length does not fit, and when there is nothing but GREASE. |
| `KnownHello.VersionOfList` | crates/fingerprint-core/src/ext.rs:78-94 | For every list of at most 127 versions, offered in the first supported_versions extension, the version is the member that is not GREASE and at least every other such member, or the legacy field when there is none. |
| `KnownHello.ModernHelloIsT13` | crates/fingerprint-core/src/ja4.rs:139-166 | Every ClientHello whose first supported_versions body is [4, 3, 4, 3, 3] has a JA4 that starts with t13, whatever else is in it. |
| `HelloReading.ListsRead` | crates/fingerprint-core/src/ext.rs:38-63 | Signature algorithms and groups are the pairs, in order, behind the two length octets of the first extension 13 and 10; none when the length does not fit. |
| `HelloReading.FormatsRead` | crates/fingerprint-core/src/ext.rs:65-76 | Point formats are the octets behind the length octet of the first extension 11; none when the length does not fit. |
| `HelloReading.AlpnReads` | crates/fingerprint-core/src/ext.rs:25-36 | The protocol is the first name of the first extension 16, if its two lengths fit and it is text. |
| `HelloReading.SegmentAReads` | crates/fingerprint-core/src/ja4.rs:139-156 | Segment a character by character: t, the two characters of the version, d or i, the ciphers and the extensions that are not GREASE in two digits that stop at 99, and the two characters of the protocol. |
| `HelloReading.Ja4RawReads` | crates/fingerprint-core/src/ja4.rs:168-200 | Behind segment a the readable JA4 is three lists in four hexadecimal digits: the ciphers and the extensions ascending, less GREASE, server name and protocol, and the signature algorithms in the order sent. |
| `HelloReading.Ja4Reads` | crates/fingerprint-core/src/ja4.rs:106-166 | JA4 is segment a, the hash of the first of these lists, and the hash of the other two; twelve zeros for what is empty. |
| `HelloReading.Ja3Reads` | crates/fingerprint-core/src/ja3.rs:22-42 | The JA3 text, cut at the commas: the version field, ciphers, extensions, groups and point formats in decimal and in the order sent, GREASE left out of the first three lists. |
| `Extensions.SameBody` | crates/fingerprint-core/src/ext.rs:15-17 | When no identifier is used with two bodies, the first match depends only on the multiset of extensions, GREASE aside. |
| `Ja4.CipherTextAgrees` | crates/fingerprint-core/src/ja4.rs:100-104 | The cipher text before hashing agrees if and only if the ciphers agree as multisets, GREASE aside. |
| `Ja4.ExtensionTextAgrees` | crates/fingerprint-core/src/ja4.rs:116-123 | The extension text before hashing agrees if and only if the extensions agree as multisets, GREASE, SNI and ALPN aside, and the signature algorithms agree in order. |
| `Ja4.Ja4RawAgrees` | crates/fingerprint-core/src/ja4.rs:191-198 | The readable JA4 agrees if and only if segment a agrees, the two multisets agree and the signature algorithms agree in order. |
| `Ja4Stability.Ja4OfMultisets` | crates/fingerprint-core/src/ja4.rs:158-166 | JA4 and its readable form are the same for every two ClientHellos of the same client: legacy version and ciphers agree, and what is read in the extensions (ALPN characters, signature algorithms, version text, otherwise only that they are there) agrees as a multiset, GREASE ciphers and extensions aside; given that extensions sent more than once read alike. The hash is an arbitrary function. |
| `Ja4Stability.SameClientByPairs` | crates/fingerprint-core/src/ja4.rs:136-166 | The same hypothesis said pair by pair: the identifiers agree as multisets, GREASE aside, and wherever one is in both ClientHellos it reads alike. |
| `Ja4Stability.AlikeIsSameClient` | crates/fingerprint-core/src/ja4.rs:136-166 | ClientHellos whose extensions read alike one by one are the same client, whatever else their bodies hold, fresh key shares for one. |
| `Ja4Stability.VersionsReadAlike` | crates/fingerprint-core/src/ext.rs:78-94 | Two supported-version lists that offer the same versions read alike, in any order and whatever GREASE is among them. |
| `Ja4Stability.SigAlgsDecide` | crates/fingerprint-core/src/ja4.rs:116-123 | Of two ClientHellos that agree in ciphers, extensions, version and ALPN as JA4 shows them, the readable JA4 agrees if and only if the signature algorithms do, in order and GREASE included. |
| `Ja4Stability.GreaseAlgorithmShows` | crates/fingerprint-core/src/grease.rs:3-5 | GREASE is not normalised everywhere: two captured ClientHellos that differ in one GREASE signature algorithm alone have different readable JA4s. |
| `Ja4Stability.OrderNeverShowsIff` | crates/fingerprint-core/src/ext.rs:15-17 | Of a captured ClientHello: no captured ClientHello of the same client, in any order, with any GREASE and with anything in the bodies JA4 does not read, has another readable JA4, if and only if its ALPN, signature algorithm and version extensions sent more than once read alike. |
| `Ja4Stability.OrderOfDuplicatesShows` | crates/fingerprint-core/src/ext.rs:15-17 | Two captured ClientHellos, both constructed, that differ in the order of their two ALPN extensions alone and have different JA4s. |
| `Ja3.Ja3Agrees` | crates/fingerprint-core/src/ja3.rs:22-42 | Two ClientHellos have the same JA3 text if and only if they agree in the version field and, in order and GREASE aside, in ciphers, extensions, groups and point formats. |
| `Ja4Stability.Ja3OrderShows` | crates/fingerprint-core/src/ja3.rs:22-42 | Of every captured ClientHello with two different extensions an order can be captured that has another JA3 text. |
| `Ja4Stability.OnlyJa3Shows` | crates/fingerprint-core/src/ja3.rs:1-5 | Of two orders of one client that uses no identifier with two bodies JA4 is the same, and the JA3 text is if and only if the orders of ciphers and extensions are, GREASE aside. |
| `Ja4.Fingerprint` | crates/fingerprint-core/src/ja4.rs:168-206 | All fields of the fingerprint are computed from one parse of the captured buffer. |
| `Ja4.RetainedFingerprint` | crates/fingerprint-probe/src/probe.rs:40-48 | The fingerprint of the octets kept is that of the connection if and only if the record is at most 8192 octets. |
| `Ja4.ProvenanceIsRight` | crates/fingerprint-core/src/ja4.rs:173-179 | The recorded places are parallel to the recorded identifiers, and the captured buffer holds each extension at its place. |
| `Profiles.CompareMeans` | crates/fingerprint-probe/src/diff.rs:180-191 | Comparison under a rule is equality of lists when the order is fixed and of multisets otherwise. |
| `Profiles.Diff` | crates/fingerprint-probe/src/diff.rs:203-388 | The fields pushed are the TLS, HTTP/2 and HTTP fields in order, and all are in order if and only if the observation matches the profile. |
| `Profiles.CleanMeans` | crates/fingerprint-probe/src/diff.rs:44-46 | A comparison is clean if and only if lists agree under their rules, counts agree, settings agree as lists and not only as text, and an HTTP/2 section is answered by one. |
| `ProfileReading.CleanReads` | crates/fingerprint-probe/src/diff.rs:203-388 | A comparison is clean if and only if: ciphers without GREASE and extensions without GREASE and the pre-shared key agree under their rules, the GREASE counts, the protocol and the server name agree, and where the profile has HTTP/2 so do settings, increment, order, the names that are not of the site, and the accepted language. |
| `ProfileReading.ProfileReads` | crates/fingerprint-probe/src/profile.rs:102-141 | What a profile made from a report holds of it, field by field. |
| `Profiles.SelfMatch` | crates/fingerprint-probe/src/profile.rs:102-141 | Every observation compares clean with the profile made from it. |
| `Profiles.MatchIsPreorder` | crates/fingerprint-probe/src/diff.rs:203-388 | Clean comparison through profiles made from observations is transitive, and symmetric between observations that agree on having HTTP/2. |
| `Profiles.InferredOrderAccepts` | crates/fpd/src/commands/capture.rs:21-33 | The inferred rule accepts every sample against a stored one if and only if all samples are rearrangements of it. |
| `Profiles.InferOrderMeans` | crates/fpd/src/commands/capture.rs:21-33 | Unknown for fewer than two samples, fixed exactly when there are two or more and all are the same, permuted exactly when two differ. |
| `Profiles.CapturedAcceptsSamples` | crates/fpd/src/commands/capture.rs:85-104 | A profile captured from several samples accepts a sample's ciphers, and its extensions, if and only if they rearrange those of the last sample, the pre-shared key aside. |
| `Emission.PreambleWithValues` | crates/fingerprint-emulate/src/h2.rs:77-128 | The octets written are those that the lemmas below describe, or the error for a profile without HTTP/2. |
| `EmittedValues.EmittedLayout` | crates/fingerprint-emulate/src/h2.rs:77-128 | The octets are the preface, a SETTINGS frame on stream 0, a WINDOW_UPDATE frame when there is an increment, and a HEADERS frame on stream 1 with the two end flags, frame heads written out. |
| `EmittedValues.EmittedIsRequest` | crates/fingerprint-emulate/src/h2.rs:49-60 | In what the parser reads back of the octets of any well-formed profile within the bounds, `:method` is GET, `:authority` the authority, `:scheme` https and `:path` a slash, and the regular header at place i has name i of the profile with the first value given for it in any case, or the empty value. |
| `Emission.SettingsReadBack` | crates/fingerprint-emulate/src/h2.rs:94-98 | The six octets written per setting are read back as the same list in wire order. |
| `Emission.FramesRoundTrip` | crates/fingerprint-h2/src/frame.rs:41-74 | Parsing the emitted bytes, whatever follows them, gives exactly the emitted frames when both payloads fit the length field. |
| `Emission.EmittedFingerprint` | crates/fingerprint-emulate/src/h2.rs:77-128 | The parser sees in an emitted preamble the settings in order, the increment without its reserved bit, no priorities, and the header list, or no headers when the decoder's bounds do not admit it. |
| `ClosedLoop.OrderRoundTrip` | crates/fingerprint-emulate/src/h2.rs:49-60 | Splitting an order, emitting its pseudo-headers and reading their order back gives the same order if and only if it is a comma-joined list of the letters m, a, s, p. |
| `ProfileReading.TrimTakesWhite` | crates/fingerprint-emulate/src/h2.rs:52 | Trimming takes ASCII white space off both ends and nothing else. |
| `ClosedLoop.ListReadBack` | crates/fingerprint-emulate/src/h2.rs:106-120 | The emitted header list has the profile's pseudo-header order and its header names, in order. |
| `ClosedLoop.ProfileReadBack` | crates/fingerprint-emulate/src/h2.rs:77-128 | Parsing what is emitted from a well-formed profile within the wire and decoder bounds gives an observation that matches it in every HTTP/2 and HTTP field, with the Akamai string of its own fields and priority `0`. |
| `ClosedLoop.EmissionMatchesProfile` | crates/fingerprint-probe/src/diff.rs:295-382 | The comparison of that observation with the profile is clean in SETTINGS, WINDOW_UPDATE, pseudo-header, header order and accept-language. |
| `ClosedLoop.ObservedIsWellFormed` | crates/fingerprint-probe/src/profile.rs:127-139 | A profile made from any observed preamble is well formed. |
| `ClosedLoop.EmittedIsNotLonger` | crates/fingerprint-probe/src/profile.rs:127-131 | What is emitted for an observed client has no more headers than the client sent, so the decoder's count bound admits it. |
| `ClosedLoop.EmittedIsText` | crates/fingerprint-emulate/src/h2.rs:71-128 | The header list emitted for an observed client is text, whatever octets the client sent. |
| `ClosedLoop.LoopCloses` | crates/fingerprint-emulate/src/h2.rs:71-128 | Capture, profile, emit, parse, compare: for every observed client whose emitted strings and payloads are within bounds all five HTTP/2 and HTTP fields are in order, and the Akamai string is reproduced if and only if the client sent no PRIORITY frames. |
| `ClosedLoop.CodecLoopCloses` | crates/fingerprint-emulate/src/h2.rs:71-128 | The same for the codec with its own tables. |
| `ConnectionLog.Log.Push` | crates/fingerprint-probe/src/log.rs:100-110 | The record gets the next number and the log keeps the newest records up to its capacity. |
| `ConnectionLog.LogIsNewestOfHistory` | crates/fingerprint-probe/src/log.rs:100-110 | Over every run of pushes the log is the newest part of the whole numbered history. |
| `ConnectionLog.SnapshotIsRange` | crates/fingerprint-probe/src/log.rs:112-116 | After every run of pushes a snapshot's numbers are the newest up to the capacity, without a gap, ending just before the next number. |
| `AdminFeed.HandleClient` | crates/fingerprint-probe/src/admin.rs:137-173 | The lines written are the snapshot's records, the end of the snapshot with its last number, and each received record above the last one written, whatever is received and however often the client lags; when writing fails at some line, exactly the lines before it. |
| `AdminFeed.SnapshotTells` | crates/fingerprint-probe/src/admin.rs:141-154 | There is a line for each record of the snapshot in order, and the line behind them tells the greatest number, or zero when it is empty. |
| `AdminFeed.WrittenIncreases` | crates/fingerprint-probe/src/admin.rs:157-164 | Nothing is written twice or out of order, whatever arrives. |
| `AdminFeed.AllWrittenIffInOrder` | crates/fingerprint-probe/src/admin.rs:157-164 | Of what arrives above the snapshot everything is written if and only if it arrives in increasing order. |
| `FeedProtocol.StepKeeps` | crates/fingerprint-probe/src/admin.rs:49-68 | Every step of logging, sending, subscribing, taking the snapshot, receiving or lagging keeps the invariant: each record is pending or sent once, and each viewer has received what was sent since it subscribed. |
| `FeedProtocol.RunKeeps` | crates/fingerprint-probe/src/admin.rs:49-68 | The invariant holds after every interleaving. |
| `FeedProtocol.NoDuplicates` | crates/fingerprint-probe/src/admin.rs:130-136 | After every interleaving each viewer's numbers are strictly increasing, across the seam between snapshot and live records. |
| `FeedProtocol.NothingIsLost` | crates/fingerprint-probe/src/admin.rs:130-136 | After every interleaving with sends in order and no lag a viewer has one unbroken run of numbers from its snapshot's first record, and once all is sent and received up to the last record logged. |
| `FeedProtocol.NothingIsLostIff` | crates/fingerprint-probe/src/admin.rs:49-60 | Whatever the order of sending, a viewer that has received all without lag has every number from its snapshot's first to the last logged if and only if the records logged after its snapshot reached it in increasing order. |
| `FeedProtocol.OutOfOrderLoses` | crates/fingerprint-probe/src/admin.rs:49-60 | The promise that no record is lost fails when two concurrent pushes send out of order: a run in which the viewer never gets the first of two records. |
| `Viewer.State.Arrive` | crates/fpd/src/tui/app.rs:163-177 | A row arriving keeps the newest at most 2000 rows, sets the flag exactly when its number jumps past the successor of the row before it, and moves the selection to the last visible row when following, so that a visible new row is the current one. |
| `Viewer.JumpIsMissingRow` | crates/fpd/src/tui/app.rs:164-171 | For rows in increasing order the flag says exactly that some number between the first and the last row is missing, evicted rows included. |
| `ViewerFeed.FlagTells` | crates/fpd/src/tui/app.rs:164-171 | After every interleaving of the feed, lag included, the viewer's flag is set if and only if a logged record between its first and last row was never written to it; while it is clear the records it lacks are exactly those before the first and behind the last. |
| `ViewerFeed.FlagMisses` | crates/fpd/src/tui/app.rs:164-171 | A record lost before the first row does not set the flag: a run in which the first of two records never arrives and the flag stays clear. |
| `Streams.Replaying.PollRead` | crates/fingerprint-probe/src/replaying.rs:34-52 | A read gives the next part of the buffer, and of the live stream once the buffer is empty; what was delivered and what remains always make up the buffer and then the stream. |
| `Streams.NothingIsDropped` | crates/fingerprint-probe/src/replaying.rs:34-52 | However reads are cut, what a reader got and what remains are the buffer followed by the live stream: nothing lost, repeated or reordered. |
| `Streams.EnoughDeliverAll` | crates/fingerprint-probe/src/replaying.rs:34-52 | As many reads with room and something to give as there are octets deliver all of the buffer and the live stream. |
| `Streams.Recording.PollRead` | crates/fingerprint-probe/src/recording.rs:35-58 | The caller gets every octet and the copy is exactly the first cap octets of all that passed. |
| `Capture.CapturePreamble` | crates/fingerprint-probe/src/serve.rs:183-212 | With a deadline after any number of the octets sent, the read loop keeps exactly the octets the specification says and leaves what it has not taken, what arrives late included; a read the deadline cuts off has taken what there was. |
| `Capture.CapturedPreamble` | crates/fingerprint-probe/src/serve.rs:183-212 | Whatever is sent and however much of it arrives before the deadline: what is captured parses if and only if all that arrived does and no frame is above 2^20 octets; then it parses to the same frames, to the last octet captured, and either the last is HEADERS and all that is ever sent parses to the same, or there is no HEADERS. |
| `Capture.CutCaptureIsLost` | crates/fingerprint-probe/src/serve.rs:183-212 | A deadline behind the header of the second frame leaves a capture that does not parse, though the first frame alone does and so does all that is sent, when the payload comes late. |
| `Capture.ReplayIsWhole` | crates/fingerprint-probe/src/serve.rs:181-182 | Handing the captured octets back before the rest gives all that is sent if and only if nothing arrived before the deadline, or the preface did and behind it whole frames up to what arrived last, a lone frame header, a whole HEADERS frame or the header of a frame above 2^20 octets; otherwise what arrives late is all that is left. |
| `Capture.ReplayIsFront` | crates/fingerprint-probe/src/serve.rs:363-364 | However it is read, what is handed back and then read on is a front of what is sent if and only if nothing was dropped or what comes late happens to go on where the capture stopped. |
| `Capture.PartOfHeaderIsLost` | crates/fingerprint-probe/src/serve.rs:181-182 | With the deadline within the first frame header, that part of the header is neither kept nor left, and what comes late follows the preface. |
| `Capture.DeadlineLeavesHole` | crates/fingerprint-probe/src/serve.rs:363-364 | One octet before the deadline and one after it: what is read is the preface and the second octet, which is no front of what was sent. |
| `Base64.Encode` | crates/fingerprint-probe/src/admin.rs:228-253 | The loop over groups of three octets and 24-bit shifts writes the quads of the specification, padding included. |
| `Base64.Decode` | crates/fpd/src/tui/source.rs:49-66 | The loop with an unmasked 32-bit accumulator gives the whole octets of the letters' bits, passing over padding and anything else. |
| `Base64.RoundTrip` | crates/fpd/src/tui/source.rs:49-66 | Decoding undoes the separately written encoding for every octet string and every padding case. |
| `Base64.AlphabetIs` | crates/fingerprint-probe/src/admin.rs:228-253 | The alphabet, letter by letter. |
| `Base64.RfcVectors` | crates/fingerprint-probe/src/admin.rs:228-253 | The examples of section 10 of RFC 4648. |

## Left out

- Sockets, TLS handshakes, certificates, timers, task spawning and forwarding: input and output over libraries.
- The TLS client construction of the emulator: a lookup over foreign calls.
- The User-Agent and verdict logic, scores, IP rendering, header injection: one branch each.
- JSON, files, the profile store, the terms gate and the terminal interface: formats and display.
- Profiles.Diff: states the fields and whether each is in order, not the values shown, the notes, or their shortening for
  display.
- AdminFeed.HandleClient: a line is written or it is not; what the buffer in front of the socket still holds when writing
  fails is not modelled.
- Report and profile fields that no comparison reads (`sig_algs`, `family`, `captured`, `source`, ALPN of the connection).
- `Publisher` as an object with a mutex and a channel: its push is two steps of `FeedProtocol`, and a poisoned lock is not
  modelled.
- Numbers beyond 64 bits in the connection log: the counter is unbounded in the model.
- Record contents in the feed and in the viewer: a record is its number and one opaque content.
- Conformance of where size updates may appear in a header block: the decoder accepts them anywhere, and so does the
  model.
- The agreement of the decoder with the two-phase reading on which error is reported: parsing the whole block first can
  meet a later fault before an earlier bad index.
- Emission of payloads of 2^24 octets or more: what the parser makes of the truncated frame is not described further.
