# Verified model of gcr's and gck's core data structures

A Dafny model of seven components of the repository, with proofs of what they are for:

- **Secure allocator** (`SecureMemory*.dfy`). A block is an array of bytes, tiled by cells
  whose first and last words point back to their metadata; metadata cells hang in two
  circular doubly linked rings. `Block` has the fields and the operations of the source;
  ghost sequences say how the cells tile the block and what is on the rings. Bytes are
  plain or part of a guard pointer, so that nothing a client wrote can hide in a guard.
  `Blocks` has the public functions over the list of all blocks, and `Client` runs
  arbitrary requests against them.
- **DER engine** (`Asn1*.dfy`): headers (`Asn1Header`), record trees (`Asn1Tlv`,
  `Asn1RoundTrip`, `Asn1Ber`), building and decoding by schema (`Asn1Schema`, `Asn1Layout`,
  `Asn1Octets`, `Asn1Codec`, `Asn1Reading`, `Asn1Tags`, `Asn1Engine`), the sorting of a SET OF (`Asn1SetOf`), object
  identifiers (`Asn1Oid`, `Asn1OidForm`), and the DOWN/RIGHT tables (`Asn1Defs`, `Asn1Create`). Requirements are those of ITU-T X.690,
  sections 8.1, 8.19 and 10.1, and of ITU-T X.680, section 8.6.
- **Object enumerator** (`Enumerator*.dfy`): the six-state machine over PKCS#11 modules
  that answer as fixed functions, chains of enumerators, and sequences of calls.
- **Decimal numbers** (`Decimal.dfy`), with the arithmetic of numerals in `Numbers.dfy`.
- **Key derivation** (`Pbkdf2.dfy`, `Pkcs12Kdf.dfy`, `SimpleKdf.dfy`) over an arbitrary
  hash or HMAC function.
- **Attributes** (`Attributes*.dfy`): builders, sets and single attributes that share
  reference-counted values. Pointers are positions in two sequences that stand for memory.
- **Wire buffer** (`Buffer.dfy`, `BufferFormat.dfy`).

`Wrappers.dfy` has what all of them use. What comes from outside is a parameter: whether
metadata or pages can be had and how large a page is, what a PKCS#11 module answers, the hash, the allocator of a
buffer, what a schema asks of the values of its leaves.

Where the code falls short of what one would expect, the model keeps the code, and the
exact condition under which the expectation holds is proved:

- an encoding is not read back when an absent optional field has the tag of the next one
  (tags are compared without their class), when an explicit tag is of class APPLICATION or
  UNIVERSAL (such tags are written and always refused), when the fields of a SET do not come
  in the order of their tags, or when an element of a SEQUENCE OF has a required part that is
  empty (it is not written): `Asn1Engine.RoundTrip`, `Asn1Tags.UnambiguousIff`, and for
  inputs `Asn1Engine.NeverDecoded` and `Asn1Engine.DroppedExample`;
- records are read that are not encodings by the basic rules: without the end of an indefinite
  length, with a length cut off, with an inner record longer than the outer one:
  `Asn1Ber.EndMayBeMissing`, `Asn1Ber.ShortLengthAccepted`, `Asn1Ber.OverrunAccepted`;
- sorting a SET OF relinks its records without ending the list, which then runs in a circle
  unless the last one is the greatest: `Asn1SetOf.AtlvSortPerform`;
- an object identifier with a zero seven-bit group is written and then refused, texts with
  leading zeros, a dot at the end or numbers of more than 31 bits are written as others, and
  octets are read that are not written back (a last arc that is cut off, an arc of 2^31 or more):
  `Asn1Oid.OidRoundTrip`, `Asn1Oid.OctetsRoundTripIff`;
- the PKCS#12 derivation is not the standard's for a hash with blocks other than 64 octets
  (SHA-384 and SHA-512 have 128), for a long salt or password, nor without a salt, except for
  one kind of password: `Pkcs12Kdf.StandardKeyIff`, `Pkcs12Kdf.NoSaltKeyIff`;
- a failed attribute fetch lets objects of a later enumerator of a chain overtake others,
  exactly when the chain before the call does not meet the condition of
  `EnumeratorChain.BatchOrdered`, which depends on how the objects are spread over tokens:
  `EnumeratorChain.RunInOrder` for any sequence of calls, `Enumerator.OvertakenRun` for a run;
- a request that leaves less than two words of the pages for a new block gets none, and the
  block stays: `SecureMemoryBlocks.AllBlocks.SecureAlloc`, `SecureMemoryBlocks.UselessBlocks`;
- a resize within a cell leaves what memory held: `SecureMemoryModel.SlackZeroIff`, and
  `SecureMemory.StaleSlack` for a run in which that is a guard;
- an enumerator for a session fails an assertion when its token cannot be described:
  `Enumerator.NewForSession`.

A few inputs make the code do what the language does not define. Contracts name them with an
outcome and say when it comes: an empty salt that is not null divides by zero, a count of
2^32 - 1 strings makes an array of no pointers, an object identifier of no octets is read
from an octet that is not there, and adding an attribute of a builder to the builder itself
reads an array that may have moved. Two more have no outcome here: an enumerator chained to
itself, directly or through others, is checked out without end, so `Enumerator.SetChained`
asks for a chain without it; and when an enumerator had attribute types in a call and is then
given an object type with none, of a class that caches none, its state refers to types that
were freed, where `Enumerator.SetObjectType` keeps their values.

Integers are unbounded except where the width matters: 32-bit tags, lengths and wrap checks
in headers, `guint` and `gint` in object identifiers (signed overflow is taken to wrap, which
happens only after ten digits), one octet for the first two arcs, the count of strings in a
buffer, 2^512 in PKCS#12. Sizes of buffers and of blocks are not assumed to overflow. Memory
of size zero is an empty array, where GLib has a null pointer (decoding an empty decimal
string).

## Model

| member | source | states |
|---|---|---|
| SecureMemoryRings.InsertCellRing | egg/egg-secure-memory.c:342-364 | the new cell becomes the head of a well-formed doubly linked cycle of the old cells and itself; the other ring is untouched |
| SecureMemoryRings.RemoveCellRing | egg/egg-secure-memory.c:367-395 | exactly that cell leaves the cycle, its links are cleared, an emptied ring is null, and none of the four assertions of the function fires |
| SecureMemory.Block.SecNeighborBefore | egg/egg-secure-memory.c:439-462 | the cell whose words end where this one begins, or none for the first; the guard word read is always a valid pointer |
| SecureMemory.Block.SecNeighborAfter | egg/egg-secure-memory.c:465-488 | the cell that begins where this one ends, or none for the last |
| SecureMemory.Block.constructor | egg/egg-secure-memory.c:927-976 | a new block is one free cell over all its words with guards in place and nothing live |
| SecureMemory.Block.SecAlloc | egg/egg-secure-memory.c:491-565 | on success exactly one allocation is added, of zero bytes, at a word that was not live, and no other allocation changes; it takes the first words of a free cell, or all of it when at most four would be left over, and leaves every pointer outside its bytes; failure changes no byte and happens only if no free cell is big enough or metadata is refused; no free cell big enough always fails |
| SecureMemory.Block.SecFree | egg/egg-secure-memory.c:568-635 | exactly that allocation is gone and no byte of another one changes; the cells are those there were with the freed one joined to its free neighbours on both sides, old guards inside it stay, so the block invariant (no two free neighbours, ring membership, guards, zeroed rest) holds again |
| SecureMemory.Block.EatNeighbor | egg/egg-secure-memory.c:731-737 | a used cell takes over the whole free cell after it; every allocation stays as it is |
| SecureMemory.Block.StealFromNeighbor | egg/egg-secure-memory.c:738-746 | a used cell takes the first words of the free cell after it, which keeps at least three; every allocation stays as it is |
| SecureMemory.Block.SecRealloc | egg/egg-secure-memory.c:666-764 | all five outcomes: where the cell has the words the pointer and the old tag stay and the bytes are exactly those memory held there, so that what is gained is zero if and only if no old guard lies in it; otherwise the cell grows or the allocation moves, with the new tag, the old bytes kept and the rest zero; no other allocation changes; failure keeps everything, including the requested size; it succeeds if and only if the cell, or it and a free cell after it, have the words or some free cell does, unless metadata is refused |
| SecureMemoryModel.SlackZeroIff | egg/egg-secure-memory.c:706-721 | a resize within a cell gains zeros if and only if no pointer byte is in the gained range |
| SecureMemory.StaleSlack | egg/egg-secure-memory.c:706-721 | a run of the operations on a block of 2048 words after which a resize within a cell hands a byte of an old guard to the client |
| SecureMemory.Block.SecAllocated | egg/egg-secure-memory.c:767-797 | the size that was asked for |
| SecureMemory.Block.SecValidate | egg/egg-secure-memory.c:800-845 | in every valid block the walk over the cells ends and none of its assertions fires |
| SecureMemory.Block.RecordedWords | egg/egg-secure-memory.c:1282-1309 | the words of the cells on the two rings add up to the words of the block, which is what the assertion of egg_secure_records demands |
| SecureMemory.Block.NothingUsed | egg/egg-secure-memory.c:979-1011 | when no cell is counted as used, one free cell covers the block, the used ring is empty and nothing is live |
| SecureMemory.Block.SecBlockDestroy | egg/egg-secure-memory.c:979-1011 | with nothing used, its assertions hold and there is exactly one metadata cell to release |
| SecureMemory.Block.UsedCount | egg/egg-secure-memory.c:491-635 | n_used is the number of live allocations |
| SecureMemoryModel.NothingSurvives | egg/egg-secure-memory.c:567-635 | a byte outside the requested range of every live allocation is a zero or part of a guard word, never a byte a client wrote |
| SecureMemoryModel.PayloadsApart | egg/egg-secure-memory.c:490-764 | the payloads of two live allocations do not overlap and lie inside the block |
| SecureMemoryModel.OneFreeCell | egg/egg-secure-memory.c:599-633 | cells that tile the block, none used and no two free ones adjacent, are one cell |
| SecureMemoryModel.LiveUpdate | egg/egg-secure-memory.c:490-764 | a change confined to some neighbouring cells and their words changes at most the one allocation at their front |
| SecureMemoryModel.MergeLocal | egg/egg-secure-memory.c:599-633 | joining two adjacent free cells and wiping the two inner guard words keeps the layout |
| SecureMemoryModel.StealReady | egg/egg-secure-memory.c:738-746 | moving the border between a used and a free cell keeps the layout and the payload |
| SecureMemory.Block.Write | egg/egg-secure-memory.c:1074-1162 | a client write inside the requested range changes those bytes of that allocation only |
| SecureMemoryClient.Run | egg/egg-secure-memory.c:1018-1210 | over any sequence of allocations, writes, reads, resizes and frees through the public functions: every answer is right (memory comes when pages can be had for a block that has the words, and is none the client holds, a resize to no more than was asked for stays in place, a read gives what is known to be there), what the client holds and knows is what a function of requests and answers says, and nothing else is live |
| SecureMemoryClient.KnowsAll | egg/egg-secure-memory.c:1018-1210 | if no resize grew an allocation where it lay, the client knows every byte it holds, so that a read gives exactly the bytes written over zeros |
| SecureMemoryClient.ServedBytes | egg/egg-secure-memory.c:1018-1210 | what a request changes in what is held, byte by byte: new memory is zero, a write puts each octet where it went and leaves the others, a resize keeps what was known, and what it adds in other memory is zero |
| SecureMemoryBlocks.AllBlocks.NoTrace | egg/egg-secure-memory.c:567-635 | in every reachable state no byte of any block outside a live requested range is one a client wrote |
| SecureMemoryBlocks.AllBlocks.SecureValidate | egg/egg-secure-memory.c:1231-1241 | in every reachable state no assertion of the validation fires |
| SecureMemoryBlocks.AllBlocks.SecureAlloc | egg/egg-secure-memory.c:1018-1071 | over the list of all blocks: on success one zeroed allocation is new, in some block of the list or a new one, and nothing else changed; it succeeds, unless metadata is refused, if and only if the length is not zero or insane and a free cell of some block has the words or pages can be had and a new block has them; a failure changes no allocation, and a block that was made in vain stays on the list |
| SecureMemoryBlocks.PagesForIff | egg/egg-secure-memory.c:852-861 | a new block, of the larger of the length and 16384 bytes rounded up to whole pages, has the words if and only if that leaves 16 bytes, as it does for every length up to 16368 |
| SecureMemoryBlocks.UselessBlocks | egg/egg-secure-memory.c:927-976 | n requests for 16384 bytes with pages of 4096 give nothing and leave n blocks with nothing in them |
| SecureMemoryBlocks.AllBlocks.SecureFree | egg/egg-secure-memory.c:1171-1210 | the allocation is gone, its block leaves the list exactly when nothing is left in it, and nothing else changed |
| SecureMemoryBlocks.AllBlocks.SecureRealloc | egg/egg-secure-memory.c:1074-1162 | null allocates, zero frees, otherwise the allocation becomes one of the new size with the first bytes kept, in place, in its block or in another block, and nothing else changed; where the cell has the words it stays with its tag and the bytes memory held, otherwise it has the new tag and what it gained is zero; it succeeds, unless metadata is refused, if and only if its cell has the words or gets them from a free cell after it, or some block or a new one has room; a failure keeps everything |
| SecureMemoryBlocks.GaveThenTook | egg/egg-secure-memory.c:1152-1157 | allocate, copy and free add up to a resize, whichever blocks are involved |
| Asn1Header.AtlvParseClsTag | egg/egg-asn1x.c:698-758 | reads a class and a short or base-128 tag as the specification function does, with its 32-bit wrap and end-of-data refusals |
| Asn1Header.AtlvParseLength | egg/egg-asn1x.c:761-814 | reads a short, long or indefinite length, with the refusals and the signed 32-bit outcome of the code |
| Asn1Header.AtlvParseClsTagLen | egg/egg-asn1x.c:817-841 | a whole header, refused when its content would not fit |
| Asn1Header.TagRead | egg/egg-asn1x.c:698-758 | what is read as a tag, for every input: the number in the first octet, or the groups up to the first unmarked one as a base-128 number modulo 2^32; refused exactly when no length can follow or when, at some group, the number times 128 modulo 2^32 is smaller than the number |
| Asn1Header.LengthRead | egg/egg-asn1x.c:761-814 | what is read as a length, for every input: a small number, the indefinite mark, or as many octets as were announced, or are left, as a big-endian number modulo 2^32 with a sign, leading zeros or not; refused when a step is seen to wrap |
| Asn1Header.AtlvUnparseLen | egg/egg-asn1x.c:1344-1373 | writes exactly the length octets, or counts them when there is no buffer |
| Asn1Header.AtlvUnparseClsTagLen | egg/egg-asn1x.c:1376-1418 | writes exactly the header octets, or counts them when there is no buffer; the rest of the buffer is untouched |
| Asn1Header.HeaderReadsBack | egg/egg-asn1x.c:698-841 | a written header is read back as class, tag, length and size, whatever follows it, for every tag below 2^32 and length below 2^31 |
| Asn1Header.MinimalHeaderIff | egg/egg-asn1x.c:698-841 | an accepted definite header is the one the encoder writes exactly when tag and length are in minimal form |
| Asn1Tlv.AtlvParseDerTag | egg/egg-asn1x.c:844-926 | the recursive parser with its cursor computes the specification function, also for indefinite lengths |
| Asn1Tlv.AtlvParseDer | egg/egg-asn1x.c:929-956 | one record and nothing after it |
| Asn1Tlv.AtlvUnparseDer | egg/egg-asn1x.c:1421-1484 | writes the encoding of the tree at the cursor and nothing elsewhere, and none of its assertions fires |
| Asn1Tlv.AtlvUnparseToBytes | egg/egg-asn1x.c:1487-1507 | the buffer of off + len bytes is filled exactly |
| Asn1Tlv.DerSize | egg/egg-asn1x.c:1421-1507 | the encoding of a laid-out tree has off + len octets |
| Asn1Ber.BerIsRead | egg/egg-asn1x.c:844-956 | every encoding the basic rules allow, with long forms longer than needed and with indefinite lengths at any level, is read as the tree it stands for, and nothing may follow it |
| Asn1Ber.BerIsUnique | egg/egg-asn1x.c:844-956 | no octets encode two trees |
| Asn1Ber.EndMayBeMissing | egg/egg-asn1x.c:878-900 | the two zero octets that end an indefinite record may be missing where the data end |
| Asn1Ber.ShortLengthAccepted | egg/egg-asn1x.c:761-814 | a length is accepted of which only the first of two octets is there |
| Asn1Ber.OverrunAccepted | egg/egg-asn1x.c:878-900 | a record of indefinite length is accepted that goes on after the end of the one it is in |
| Asn1Ber.WhatIsRead | egg/egg-asn1x.c:844-956 | whatever is accepted, a record has a value of the length it says, or children, as its class octet says |
| Asn1RoundTrip.ParseOfDer | egg/egg-asn1x.c:844-956 | for every laid-out definite tree, parsing the unparsed bytes rebuilds the tree and consumes everything |
| Asn1RoundTrip.ParseOfPlainDer | egg/egg-asn1x.c:844-956 | a tree without encoding instructions is rebuilt identically |
| Asn1RoundTrip.DerOfParse | egg/egg-asn1x.c:844-956 | for every accepted definite-length input, unparsing the parse gives the input back if and only if all its headers are minimal |
| Asn1Layout.BuiltIsLaid | egg/egg-asn1x.c:1420-1507 | whatever the build pass makes has, at all levels, the sizes of the octets the write pass emits (explicit wrappers, bit-string and zero-byte prefixes, child sums), given laid-out ANY parts and a total below 2^31 |
| Asn1Octets.EncodesIff | egg/egg-asn1x.c:1576-1895 | a node that is encoded has one encoding, which is what is written: without a tag of its own the octet of its type from X.680 (0x30 for SEQUENCE, 0x31 for SET), with an implicit one class, 0x20 for a container, and number, with an explicit one class, 0x20 and number around the usual record; numbers from 31 on in seven-bit groups, lengths in the fewest octets; the spare bits of a BIT STRING zero behind their number, a zero before the sign bit of an unsigned INTEGER; children one after the other, without those that are absent |
| Asn1Octets.IdentifierIff | egg/egg-asn1x.c:1384-1405 | the identifier octets written are the one short form below 31 and the one sequence of groups without a leading zero from 31 on, for every class and 32-bit number |
| Asn1Octets.LengthIff | egg/egg-asn1x.c:1344-1373 | the length octets written are the one octet below 128 and the one shortest big-endian form from there on |
| Asn1Engine.AnodeBuildAnything | egg/egg-asn1x.c:1830-1895 | building a node: leaves, containers, ANY, explicit wrapping, what is left out; what is built is written as the octets X.690 gives the node (Asn1Octets.EncodesIff) |
| Asn1Engine.AnodeBuildStructured | egg/egg-asn1x.c:1752-1805 | the loop over the children collects the records that are built, in order, with the sum of their sizes |
| Asn1Engine.AnodeDecodeOneWithoutTag | egg/egg-asn1x.c:1165-1200 | explicit, structured and primitive records, and the record that is remembered |
| Asn1Engine.AnodeDecodeSequenceOf | egg/egg-asn1x.c:1013-1047 | every record goes to a node of its own, the first to the template, the others to clones of it as decoding has left it |
| Asn1Engine.TagsAscend | egg/egg-asn1x.c:987-1010 | the tags of a SET are in ascending order |
| Asn1Engine.AnodeDecodeAnything | egg/egg-asn1x.c:1236-1292 | the loop over nodes and records with OPTIONAL and DEFAULT skipping computes the specification function |
| Asn1Engine.EggAsn1xEncode | egg/egg-asn1x.c:1898-1920 | refuses exactly when validation or building does; otherwise, for every tree whose leaves have no children and whose containers have some, the buffer has, of all octet strings, the one encoding X.690 gives the tree, said of the octets and the tree only |
| Asn1Engine.EggAsn1xDecodeFull | egg/egg-asn1x.c:1295-1327 | clear, parse, match and validate, in that order |
| Asn1Reading.DecodeFullIff | egg/egg-asn1x.c:1295-1327 | decoding gives a tree exactly when the octets are one record whose tag the cleared node waits for, the tree is what that node becomes when it is given the record, and the tree passes validation |
| Asn1Reading.ClearIs | egg/egg-asn1x.c:4661-4692 | clearing leaves the definitions, no values and no records anywhere, and of every SEQUENCE OF the first element only |
| Asn1Reading.CloneIs | egg/egg-asn1x.c:246-262 | a copy of a node has its definitions and those of its children at all levels, and nothing else |
| Asn1Reading.ReadsIff | egg/egg-asn1x.c:1050-1220 | what a node becomes, said of the record and the node: one record inside an explicit tag of class CONTEXT-SPECIFIC or PRIVATE; the content, or of a BIT STRING all but its first octet, which is below 8 and counts zero bits at the end; no value for a constructed string or an ANY, but the record; fields and elements from the records in order; and nothing else is accepted |
| Asn1Reading.FieldsIff | egg/egg-asn1x.c:1236-1292 | the fields take the records in order, each the next one if it waits for its tag, and those that take none may be absent and end up with nothing; no record is left over |
| Asn1Reading.ElementsIff | egg/egg-asn1x.c:1013-1047 | of a SEQUENCE OF the first record goes to the node that is there and every other to a copy of that node without values |
| Asn1Engine.ConstructedString | egg/egg-asn1x.c:1128-1161 | a string that comes in pieces is accepted: it passes validation, has no value of its own and keeps its record |
| Asn1Engine.AnyRecord | egg/egg-asn1x.c:1081-1161 | an ANY without a tag of its own takes every record, passes validation and has that record |
| Asn1Codec.EveryRecordUsed | egg/egg-asn1x.c:1236-1292 | a successful match gives every record to exactly one node, and every required node and every node with a value got one |
| Asn1Codec.NodeReadsBack | egg/egg-asn1x.c:1164-1327 | for trees of primitive leaves, SEQUENCEs, SETs, SEQUENCEs OF and ANYs, any of them OPTIONAL or DEFAULT and with implicit or explicit tags: the record of a node is decoded, into any empty tree of the schema, to the node's values (as DER puts them; of an ANY, the record it was given), with something exactly where something was encoded, if and only if explicit tags are not APPLICATION or UNIVERSAL, the record of an ANY has the tag the ANY asks for, SET fields come in tag order, and every field that is absent may be and does not wait for the tag of the next one that is there |
| Asn1Codec.AnyReadsBack | egg/egg-asn1x.c:1081-1161 | the record of an ANY is given back as it is, exactly when it has the tag and, for an explicit tag, the class and the one child that are asked for |
| Asn1Codec.MistakenFor | egg/egg-asn1x.c:1236-1292 | a record taken by an absent field leaves too few for the others: if decoding succeeds all the same, a field that was encoded is left without one |
| Asn1Engine.RoundTrip | egg/egg-asn1x.c:1164-1327 | decoding an encoding, into any tree of the same schema, ANYs included, gives the same values if and only if that condition holds and the values in DER form pass validation; an ANY passes when it has a record or may be absent |
| Asn1Engine.NeverDecoded | egg/egg-asn1x.c:1173-1175 | what has an explicit tag of class APPLICATION or UNIVERSAL is written and always refused, unless it is an ANY, which brings its own record |
| Asn1Engine.DroppedExample | egg/egg-asn1x.c:1752-1805 | a list of one element with an INTEGER and an empty list that is not optional passes validation, but the empty list is not written, and the element is not read back |
| Asn1Tags.UnambiguousIff | egg/egg-asn1x.c:1164-1327 | a schema of leaves, some of them optional, and required SEQUENCEs and SETs gives back all values it can hold if and only if, at every level, in each run of optional fields and the field after it the tags differ, the tags of a SET ascend and no explicit tag is of class APPLICATION or UNIVERSAL |
| Asn1SetOf.AtlvSortPerform | egg/egg-asn1x.c:1524-1573 | the records of a SET OF come in the order of their octets, each once, and the list ends, if and only if the last one is greater than all others before; otherwise every record has a next one and the list has no end |
| Asn1SetOf.LessIff | egg/egg-asn1x.c:1515-1522 | the order is that of octet strings: the first octet in which they differ decides, and a beginning is less than the whole |
| Asn1SetOf.EndlessExample | egg/egg-asn1x.c:1524-1573 | a list without an end from the INTEGERs 1, 8 and 3 |
| Asn1Oid.Atoin | egg/egg-asn1x.c:179-189 | minus one for anything but digits, otherwise the decimal value in wrapping 32-bit arithmetic |
| Asn1Oid.AnodeWriteObjectId | egg/egg-asn1x.c:2500-2555 | writes the octets of the arcs or refuses; with a buffer as long as the text every write is in range, and the encoding is shorter than the text, for every text |
| Asn1Oid.SetOidAsString | egg/egg-asn1x.c:3700-3721 | the buffer of strlen bytes is always enough |
| Asn1OidForm.WrittenIff | egg/egg-asn1x.c:2500-2555 | a text is written, and as these octets, exactly when it has more than two arcs, none empty or negative in 32 bits, the first octet has the low eight bits of 40 times the first and the second, and the rest is, arc by arc, the one string of seven-bit groups for its number without an empty group in front |
| Asn1OidForm.NumberIs | egg/egg-asn1x.c:179-189 | digits stand for their number modulo 2^32 with a sign, anything else for minus one |
| Asn1OidForm.ArcsAre | egg/egg-asn1x.c:2508-2520 | the arcs have no dots in them and are the text with dots between them, up to one dot at the end |
| Asn1Oid.AnodeReadObjectId | egg/egg-asn1x.c:2442-2497 | the dotted text of the octets, refusing any 0x80 octet and any number seen to wrap; of no octets, the text of whatever octet lies where they would be |
| Asn1OidForm.ReadIff | egg/egg-asn1x.c:2442-2497 | octets are read, and as this text, exactly when no later octet is 0x80, no further group makes an arc less in 32 bits, and the text has the first octet divided by 40, the rest of that division, and for each later arc that is complete the number of its groups modulo 2^32 |
| Asn1Oid.OidRoundTrip | egg/egg-asn1x.c:2441-2555 | for every text that can be written, reading back what was written gives the text if and only if it does not end with a dot, its arcs are decimal numbers below 2^31 without leading zeros, and of the arcs b < 40, 40a + b <= 255 and no later arc has a zero seven-bit group before its last |
| Asn1Oid.OctetsRoundTripIff | egg/egg-asn1x.c:2441-2555 | for all octets that can be read, writing back the text gives the octets if and only if there is a later arc, the last one is complete and none is above 2^31 - 1 |
| Asn1Defs.ReadIsFlat | egg/egg-asn1x.c:4176-4216 | reading a table at a position gives a tree whose preorder is exactly the slice up to the end |
| Asn1Defs.FlatIsRead | egg/egg-asn1x.c:4176-4216 | the preorder of every tree, with its DOWN and RIGHT flags, is read back as that tree wherever it stands |
| Asn1Defs.Terminator | egg/egg-asn1x.c:4177-4216 | only an entry without name, value, type and flags ends a table |
| Asn1Defs.AdefNextSibling | egg/egg-asn1x.c:4177-4202 | lands exactly one subtree ahead, or nowhere for the last sibling |
| Asn1Defs.AdefFirstChild | egg/egg-asn1x.c:4205-4216 | the list of children starts right after the entry, or there is none |
| Asn1Defs.FirstMatch | egg/egg-asn1x.c:4219-4234 | first child and next sibling go through exactly the children: the first that matches is found, and none is missed |
| Asn1Create.BuildNodes | egg/egg-asn1x.c:4474-4500 | the loop with its climbing makes one linked node per entry of the subtree, each with its parent and all its children in order, and its assertion holds |
| Asn1Create.EggAsn1xCreate | egg/egg-asn1x.c:4446-4507 | the nodes that are made form the tree whose preorder is the slice of the table at the first definition of that name |
| EnumeratorState.GckEnumeratorState.StateModules | gck/gck-enumerator.c:206-237 | the next module's slots are taken up; what is pending stays the same, token by token |
| EnumeratorState.GckEnumeratorState.StateSlots | gck/gck-enumerator.c:240-310 | a slot without a matching token is passed over, another is entered; what is pending stays the same, token by token; backward it drops the slots |
| EnumeratorState.GckEnumeratorState.StateSlot | gck/gck-enumerator.c:313-353 | a session is opened, or the slot is unwound; what is pending stays the same, token by token |
| EnumeratorState.GckEnumeratorState.StateSession | gck/gck-enumerator.c:356-388 | the user is logged in afterwards exactly if that was so or is asked for and possible; the session and what is pending, token by token, stay the same; backward it drops the session |
| EnumeratorState.GckEnumeratorState.StateFind | gck/gck-enumerator.c:391-452 | the objects of the search, in order, become the found ones; what is pending stays the same, token by token |
| EnumeratorState.GckEnumeratorState.StateResults | gck/gck-enumerator.c:455-538 | found objects are fetched in order up to the batch size, those that can be (EnumeratorModel.FetchAllFrom says what each then has); one that cannot be fetched still counts; when they run out the state unwinds to the slots |
| EnumeratorState.GckEnumeratorState.RewindState | gck/gck-enumerator.c:144-156 | unwinding reaches the target state with the shape that state demands, and keeps results |
| EnumeratorState.GckEnumeratorState.CleanupState | gck/gck-enumerator.c:159-203 | from every reachable state cleanup ends in the modules state with everything of the slot cleared and nothing left to come |
| EnumeratorState.GckEnumeratorState.RunState | gck/gck-enumerator.c:763-788 | of the objects pending, in groups by token, a run for a number of objects looks at exactly the whole groups before the first that has as many, and at as many of that one; those it can fetch become ready, the others are dropped; it terminates by the measure (modules, slots, state) |
| EnumeratorModel.ModuleGroupsAll | gck/gck-enumerator.c:206-452 | the groups taken together are the objects of every slot with a matching token, module by module |
| EnumeratorModel.InModulesIff | gck/gck-enumerator.c:206-452 | an object is one to come from some modules exactly if one of their slots has it: every field the URI gives is that of the token, the session is opened as asked for, and the user's search finds it if login was asked for and succeeded, the public search otherwise |
| EnumeratorModel.CollectedIff | gck/gck-enumerator.c:391-452 | a search finds what is in its answers up to the first that is empty or fails |
| EnumeratorModel.CollectedAppend | gck/gck-enumerator.c:391-452 | objects that are answered are followed by those of the answers after them; an answer without any, or a failure, ends the search |
| EnumeratorModel.InOneSlot | gck/gck-enumerator.c:391-452 | the objects of a slot come in the order in which the search gives them |
| EnumeratorModel.InModulesAppend | gck/gck-enumerator.c:206-237 | the objects of more modules come after those of the ones before |
| EnumeratorModel.FetchAllFrom | gck/gck-enumerator.c:455-538 | of the objects fetched, in order, exactly those are there that do not refuse, each with one value for each attribute type: the object's own value of that type, or none if it has none; without types nothing is asked for |
| EnumeratorModel.SeenSplit | gck/gck-enumerator.c:455-538 | where a batch is cut: the groups before the first with as many objects as wanted are seen whole, and as many of that one |
| Enumerator.PerformEnumerateNext | gck/gck-enumerator.c:763-788 | the loop over a chain leaves exactly the states that running one after the other for what is still wanted gives, the rest of them untouched once enough is ready |
| Enumerator.ExtractResults | gck/gck-enumerator.c:1132-1151 | hands out exactly the results that are ready, state by state, up to the number asked for |
| Enumerator.CheckOut | gck/gck-enumerator.c:1009-1073 | every enumerator of the chain gives its state away, linked in order, with its own attribute types |
| Enumerator.CheckIn | gck/gck-enumerator.c:1076-1099 | every enumerator gets its own state back |
| Enumerator.NextN | gck/gck-enumerator.c:1216-1254 | gives exactly what the chain before the call determines, whatever fails: leftovers, then what a run for the rest makes ready; every state is back in its enumerator; each object handed out is one of a slot of its enumerator, with that enumerator's attribute types, and for each of them the value the object has or none |
| Enumerator.Next | gck/gck-enumerator.c:1168-1197 | the same for one object, or none, with the same said of it |
| Enumerator.NextAsync | gck/gck-enumerator.c:1270-1334 | the same for the asynchronous pair of calls, which look further first, with the same said of each object |
| Enumerator.Enumerate | gck/gck-enumerator.c:1168-1334 | any sequence of calls with any batch sizes gives exactly what the chain at the start determines: when every fetch succeeds or none is requested, the objects to come, in order and once, as many as were asked for or there are; whatever fails, in order if and only if RunKeepsOrder holds of the chain at the start (no object turning up twice), always so for a lone enumerator; nothing is lost or repeated, and after enough calls everything that can be fetched has been handed out; each object handed out has, for each attribute type of its enumerator, the value the object has or none |
| Enumerator.EnumerateTwo | gck/gck-enumerator.c:1168-1334 | from two lists of modules, one enumerator chained to the other: the results are the objects of every matching token of the first and then of the second, up to the number asked for |
| Enumerator.EnumerateModules | gck/gck-enumerator.c:206-538 | one enumerator over modules that asks for attributes, through any calls: its results are, in order, a beginning of the objects of the modules without those that refuse, all of them after enough calls, each of a slot whose token has every field the URI gives, from the user's search exactly if login was asked for and succeeded, with one value per attribute type, the object's own |
| Enumerator.OvertakenRun | gck/gck-enumerator.c:455-538 | two enumerators over modules, run: with an object that cannot be fetched and two that can in one token, a batch of two is one of these and one of the second enumerator, and the other comes too late; with the first in a token of its own the batches are in order |
| Enumerator.SetObjectType | gck/gck-enumerator.c:858-897 | from the next call on the enumerator asks for the types given, or those its class caches, or what its state asked for before |
| Enumerator.NewForModules | gck/gck-enumerator.c:685-704 | an enumerator over modules starts with everything in those modules to come |
| Enumerator.NewForSlots | gck/gck-enumerator.c:707-726 | the same over slots |
| Enumerator.NewForSession | gck/gck-enumerator.c:729-754 | the same for one session, if and only if its token can be described; otherwise the assertion on the token information in state_session fails when the enumerator is run or cleaned up |
| Enumerator.SetChained | gck/gck-enumerator.c:929-950 | the new chain, or none, takes the place of the one there was, and what it has comes after what the enumerator has; the old chain can still be run |
| EnumeratorChain.PerformOrdered | gck/gck-enumerator.c:763-788 | when every fetch succeeds, looking further keeps the chain in order and makes enough results ready, unless nothing is left |
| EnumeratorChain.NextOrdered | gck/gck-enumerator.c:763-788 | for one object the condition of BatchOrdered is one on the next object of each state only, however objects are spread over tokens |
| EnumeratorChain.OvertakenExample | gck/gck-enumerator.c:455-538 | the chains of Enumerator.OvertakenRun as values: the order is kept if and only if the object that cannot be fetched is in a token of its own |
| EnumeratorChain.BatchOrdered | gck/gck-enumerator.c:763-788 | for any chain in order and any batch size: looking further keeps the chain in order if and only if no state that fetches less than is still wanted of it and keeps objects it could fetch comes before one with something to hand out |
| EnumeratorChain.ShortByFailure | gck/gck-enumerator.c:455-538 | a state that fetches less than is wanted of it and keeps objects it could fetch had a fetch that failed |
| EnumeratorChain.CallInOrder | gck/gck-enumerator.c:1132-1334 | what a call hands out is what comes next if that condition holds of the chain before the call, and, where no object turns up twice, only if it does |
| EnumeratorChain.RunInOrder | gck/gck-enumerator.c:1132-1334 | the same for any sequence of calls, with the condition on the chain before the first of them |
| EnumeratorChain.CallKeeps | gck/gck-enumerator.c:1132-1334 | no call loses or repeats an object, gives more than was asked for, or does nothing while there is something to do |
| EnumeratorChain.RunSourced | gck/gck-enumerator.c:1132-1334 | whatever a sequence of calls hands out was ready in some enumerator of the chain or is one of its pending objects with the attributes that enumerator asks for |
| EnumeratorChain.CallFetchable | gck/gck-enumerator.c:1132-1334 | when every fetch succeeds a call keeps to the order and is short only at the end |
| Decimal.Decode | egg/egg-decimal.c:29-101 | refuses anything but digits; otherwise the big-endian value of the octets is the decimal value and there is no leading zero octet |
| Decimal.NumberNext | egg/egg-decimal.c:47-58 | one digit more is ten times the number and the digit |
| Decimal.Halve | egg/egg-decimal.c:80-87 | one pass halves the number in the digit array, skips cleared digits, and the last digit was its parity |
| Decimal.Bits | egg/egg-decimal.c:64-97 | the loop terminates, every write stays inside the buffer of one octet per digit, and the octets are the number, minimal |
| Decimal.NoLeadingZero | egg/egg-decimal.c:64-97 | the highest octet written is not zero |
| Pbkdf2.GeneratePbkdf2 | egg/egg-symkey.c:522-597 | equals PBKDF2 of section 5.2 of RFC 8018 for every output length, iteration count and hash size; in bits: octet j of the key has exactly those bits set that an odd number of the strings U_1 ... U_c of block j / hLen + 1 have set at j % hLen, where U_1 is the HMAC of the salt and the block number in four octets and each other the HMAC of the one before |
| Pbkdf2.PrfBlock | egg/egg-symkey.c:562-586 | one block is U_1 xor ... xor U_c |
| Pbkdf2.KeyOctet | egg/egg-symkey.c:522-597 | each octet of the derived key, bit by bit, in the terms above |
| Pbkdf2.XorTwice | egg/egg-symkey.c:582-583 | a second exclusive or with the same number undoes the first, and the order of the two does not matter, for numbers of any width |
| Pbkdf2.RoundUndone | egg/egg-symkey.c:574-584 | a block after c rounds, xored with U_c, is the block after c - 1 |
| Pbkdf2.LastBlock | egg/egg-symkey.c:554-558 | the code's block count is the ceiling and the remainder is between one and a block |
| Pkcs12Kdf.GeneratePkcs12 | egg/egg-symkey.c:299-429 | for every salt, password, iteration count, hash size and output length, the output is what the rounds over the code's buffer yield, octet by octet: 64 octets of the identifier and the buffer of FillBuffer, hashed as often as the iteration count says, the buffer raised by each block plus one; a salt that is there but empty makes it divide by zero |
| Pkcs12Kdf.TakenIsStream | egg/egg-symkey.c:373-399 | the rounds yield the first octets of A_1 || ... || A_c with c the least number of blocks |
| Pkcs12Kdf.TakenIsCodeKey | egg/egg-symkey.c:299-429 | the same said without the functions of the model: chains of r hashes, buffers whose blocks are raised by the hash as a number of 64 octets plus one modulo 2^512, salt octets at their position modulo the length of the salt, password octets two per character and two zeros at the end |
| Pkcs12Kdf.RepeatedChain | egg/egg-symkey.c:379-385 | A_i is the end of a chain of r hashes that starts with the hash of D || I |
| Pkcs12Kdf.DerivedIsStandard | egg/egg-symkey.c:299-429 | what is called the standard's key is that of RFC 7292, appendix B.2, step by step: D, S and P filled to the block size, r hashes for each A_i, each block of I raised by B + 1 |
| Pkcs12Kdf.AddToBlock | egg/egg-symkey.c:405-418 | a block becomes (I_j + B + 1) mod 2^512, right-aligned with leading zeros |
| Pkcs12Kdf.FillBuffer | egg/egg-symkey.c:339-371 | the buffer is the salt and then the password as 16-bit characters with a terminator, each repeated to 64 octets |
| Pkcs12Kdf.InitialIsStandard | egg/egg-symkey.c:339-371 | with a salt, what is hashed first is the string D || I of RFC 7292, appendix B.2, for a hash with blocks of v >= 64 octets if and only if v = 64 and salt and password string each fit in 64 octets |
| Pkcs12Kdf.StandardKeyIff | egg/egg-symkey.c:299-429 | with a salt, the key is that of appendix B.2 for every hash with blocks of v >= 64 octets if and only if v = 64 and salt and password string each fit in 64 octets |
| Pkcs12Kdf.NoSaltIsStandard | egg/egg-symkey.c:339-371 | without a salt, what is hashed first is the string D || I of an empty salt if and only if v = 64 and the password string is more than 64 and at most 128 octets, all zero; for any identifier but zero |
| Pkcs12Kdf.NoSaltKeyIff | egg/egg-symkey.c:299-429 | without a salt, the key is that of appendix B.2 for an empty salt and every hash if and only if that is so |
| Pkcs12Kdf.NoSaltExample | egg/egg-symkey.c:339-371 | with neither salt nor password 64 zero octets are hashed where the standard has none |
| Pkcs12Kdf.NoSaltIsZeros | egg/egg-symkey.c:344-346 | without a salt the code works as with 64 zero octets |
| SimpleKdf.GenerateSimple | egg/egg-symkey.c:102-205 | key and vector are consecutive parts of D_1 || D_2 || ..., where each D is the iterated hash of the one before with password and salt, also when only one of them is wanted; octet by octet, position j is octet j % n of digest j / n, each digest a chain of as many hashes as there are iterations |
| Attributes.Gck.ValueNew | gck/gck-attributes.c:106-115 | a new value has one reference, in hand |
| Attributes.Gck.ValueRef | gck/gck-attributes.c:118-133 | one more reference; a value that is held was never freed, so the warning branch is not taken |
| Attributes.Gck.ValueUnref | gck/gck-attributes.c:136-148 | one reference less; freed exactly at the last |
| Attributes.Gck.FindAttribute | gck/gck-attributes.c:329-341 | the first attribute of the type |
| Attributes.Gck.ClearOrPush | gck/gck-attributes.c:344-358 | the first attribute of the type is emptied and lets go of its value, or an empty one is added |
| Attributes.Gck.CopyAttr | gck/gck-attributes.c:361-381 | the copy shares the value and all counts stay right; an attribute of the builder itself that is set is emptied before it is read, and one that is added is read where it no longer is if the array moves |
| Attributes.Gck.Data | gck/gck-attributes.c:479-620 | add and set with data, empty or invalid: the list becomes the old one with the attribute added or set, the data in a value of its own |
| Attributes.Gck.CopyAll | gck/gck-attributes.c:840-1050 | all attributes of a set are added or set, one after the other |
| Attributes.Gck.AddOnly | gck/gck-attributes.c:919-936 | what is added are attributes of the set at positions that never go back, each position as often as the type there is asked for |
| Attributes.Gck.AddExcept | gck/gck-attributes.c:1006-1025 | what is added are, in order, the attributes of the set at exactly the positions whose type is not among those given |
| AttributesModel.OnlyMany | gck/gck-attributes.c:919-936 | an attribute is added exactly if it is in the set and its type is asked for, as often as the set has it times how often its type is asked for |
| Attributes.Gck.BuilderEnd | gck/gck-attributes.c:1275-1299 | the attributes go over to a new set and the builder is empty; no count changes |
| Attributes.Gck.BuilderClear | gck/gck-attributes.c:1312-1330 | the builder is empty and has let go of everything |
| Attributes.Gck.BuilderCopy | gck/gck-attributes.c:397-411 | a new builder with the same attributes, all values shared |
| Attributes.Gck.Unref | gck/gck-attributes.c:2197-2215 | the last reference to a set or builder lets go of all its values |
| Attributes.Gck.AttributeInitCopy | gck/gck-attributes.c:1852-1869 | a single attribute that shares the value |
| Attributes.Gck.AttributeClear | gck/gck-attributes.c:1883-1891 | lets go of the value and keeps the type |
| AttributesRun.Run | gck/gck-attributes.c:117-148 | after any run of calls the holders have the attributes the calls gave them and the values contain what was given; the count of every value is the number of places (a holder and a position) where an attribute holds it, and it is freed exactly when there are none |
| AttributesRun.Perform | gck/gck-attributes.c:302-2215 | each call makes of the holders what a function of the call and the holders before says, and makes a value only of data it is given; for the calls with types that function is the one of AddOnly and AddExcept |
| AttributesRun.TotalCount | gck/gck-attributes.c:117-148 | counting over all holders and counting the places are the same |
| AttributesRun.ReferencesAllowed | gck/gck-attributes.c:2180-2215 | after any run of calls exactly the builders and sets that are there can be referenced and let go of: none is left with a count of zero |
| AttributesModel.SetChangesFirst | gck/gck-attributes.c:344-358 | a set changes only the first attribute of its type, is what is found afterwards, and changes what is found for no other type |
| AttributesModel.AddKeepsFind | gck/gck-attributes.c:328-341 | an add never changes what is found for a type already present |
| AttributesModel.SetAllFinds | gck/gck-attributes.c:1040-1050 | after setting a whole set, the last attribute of each of its types is found, and all other types are found as before |
| Buffer.EggBuffer.InitFull | egg/egg-buffer.c:38-59 | an empty buffer of the reserved size, 64 by default, with the allocator given or the standard one; without memory, an empty one that cannot grow and one failure |
| Buffer.EggBuffer.Reset | egg/egg-buffer.c:91-97 | no contents and no failures; every octet of the memory is zero |
| Buffer.EggBuffer.Reserve | egg/egg-buffer.c:168-198 | succeeds exactly when there is room or the allocator gives the grown size, twice the old one and what is wanted on top if that is more; the contents stay |
| Buffer.EggBuffer.Append | egg/egg-buffer.c:221-229 | the contents are extended by the bytes, or unchanged with one more failure |
| Buffer.EggBuffer.SetUint16 | egg/egg-buffer.c:283-293 | overwrites two octets in range and nothing else |
| Buffer.EggBuffer.SetUint32 | egg/egg-buffer.c:339-349 | overwrites four octets in range and nothing else |
| Buffer.EggBuffer.AddUint16 | egg/egg-buffer.c:273-280 | the contents are extended by the big-endian octets |
| Buffer.EggBuffer.AddUint32 | egg/egg-buffer.c:329-336 | the contents are extended by the big-endian octets |
| Buffer.EggBuffer.AddUint64 | egg/egg-buffer.c:369-374 | the same; a failure leaves a prefix |
| Buffer.EggBuffer.AddByteArray | egg/egg-buffer.c:393-405 | length and bytes, or the mark for none; too long fails |
| Buffer.EggBuffer.AddString | egg/egg-buffer.c:456-468 | length and characters, or the mark for none; too long fails without being counted |
| Buffer.EggBuffer.AddStringv | egg/egg-buffer.c:515-536 | the number of strings and then each |
| Buffer.EggBuffer.GetByte | egg/egg-buffer.c:241-256 | the octet and the next offset exactly when it is there |
| Buffer.EggBuffer.GetUint16 | egg/egg-buffer.c:295-310 | the value and the next offset exactly when two octets are there |
| Buffer.EggBuffer.GetUint32 | egg/egg-buffer.c:352-366 | the value and the next offset exactly when four octets are there |
| Buffer.EggBuffer.GetUint64 | egg/egg-buffer.c:376-390 | the two halves, or nothing; a failure is counted once |
| Buffer.EggBuffer.GetByteArray | egg/egg-buffer.c:420-453 | the bytes exactly when they are all there |
| Buffer.EggBuffer.GetString | egg/egg-buffer.c:471-512 | the same, refusing a zero octet or when there is no memory for the string; only a short length counts as a failure |
| Buffer.EggBuffer.GetStringv | egg/egg-buffer.c:539-581 | all the strings or nothing, also when memory is refused; it writes past its array exactly when the count is 2^32 - 1, memory for no pointers is given and a first string is there |
| BufferFormat.WrittenIsRead | egg/egg-buffer.c:515-581 | strings that were written are read back without an overrun when memory can be had |
| BufferFormat.ItemReadsBack | egg/egg-buffer.c:167-581 | each typed value is read back where it was written, whatever is around it |
| BufferFormat.ItemReadIff | egg/egg-buffer.c:167-581 | a value is read at an offset exactly when it is one of its type and stands there as it would have been written; nothing else is accepted |
| BufferFormat.AllReadBack | egg/egg-buffer.c:167-581 | in any sequence of typed values each is read back at its offset, and its next offset is that of the one after |
| Buffer.AddAll | egg/egg-buffer.c:167-581 | adding any sequence of typed values to a buffer that can grow keeps what was there, fails nowhere, and reading the types in order gives the values with the recorded offsets |

## Left out

- mmap and mlock, valgrind annotations, locks, environment lookups and the fallback allocator of secure memory; freeing or resizing memory that belongs to no block ends in that fallback or in an assertion, so the model asks for memory that is live.
- The pool of metadata cells (`pool_alloc`, `pool_free`): a call to it succeeds or fails as a parameter says; that a word points into the pool is modelled by the type of the pointer.
- The order of a few independent writes inside one allocator or attribute operation (for example a value is taken out of its attribute before its reference is dropped, not after) where no other code can see the difference.
- CHOICE, SET OF and TIME leaves: only the kinds of nodes in `Asn1Schema.dfy` are modelled; of SET OF only the sorting is, on records whose own content stays as it is. The content of a string that comes in pieces is kept as a record; putting it together is not modelled.
- Asn1Engine.AnodeBuildAnything: CHOICE and SET OF are not among its kinds of nodes.
- Asn1Engine.AnodeBuildStructured: SET OF, whose records would be marked for sorting, is not among its kinds of nodes.
- Schema nodes are values and decoding returns a new tree, so a tree left half changed by a failed decoding is not modelled; the mutable linked nodes appear only in `Asn1Create.dfy`.
- Asn1Engine.EggAsn1xEncode: leaves are validated by a parameter, and the assertion failures of `g_return_val_if_fail` guards are preconditions.
- Asn1Create.EggAsn1xCreate: definitions are looked up by name only, and the tree is as it is before `traverse_and_prepare`.
- Joining identifiers, options and sorted sets in `traverse_and_prepare`, and the search for object identifiers in `match_oid_in_definitions`, which has no termination measure; `egg_asn1x_create` is modelled for names.
- Integers as numbers, times, strings and bits as read and written by the `egg_asn1x_get` and `egg_asn1x_set` functions.
- Enumerator.SetChained: a chain that comes back to the enumerator is excluded, since checking it out recurses without end (`gck/gck-enumerator.c:1009-1021`).
- Enumerator.SetObjectType: a type that is not one of objects is refused before anything changes; that is not modelled, and freed attribute types keep their values.
- Cancellation, interaction with the user, object types, properties and the GObject side of the enumerator; errors of a module are answers that end a search or skip a slot.
- A token that is not initialized, login failures other than refusal, and session pooling.
- `egg_symkey_generate_pbe` and the ciphers behind all key derivations; UTF-8 decoding of PKCS#12 passwords, whose characters are given as numbers.
- Values taken over from a caller (`gck_builder_take_data`) and the typed getters and setters that go through the data functions; attribute hashing, printing and template preparation.
- `egg_buffer_set_allocator`, `add_empty`, `resize`, `uninit` and `equal`; an allocator gives the same answer for the same size every time.
- Hex, PEM armor, padding, PKCS#1 blocks, hash tables, file tracking, the crypto backends and the user interfaces.
