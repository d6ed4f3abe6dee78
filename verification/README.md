# Verified model of Open Source Tripwire's core

A Dafny model of the algorithmic core of Open Source Tripwire, with proofs. It covers the code that the file
integrity databases and reports rest on:

- **Fast multiplication in groups** (`Groups`, `Bits`, `IntMultiply`, `CascadeMultiply`, `ExponentHeap`,
  `GeneralCascade`, `Exponentiation`, `Modular`, `Euclid`): sliding windows, a partly filled two-exponent table, a heap
  of exponents, and the Euclidean loops with rotating slots. Each is proved equal to its one-line definition. Group laws
  hold up to the group's own equality, so the same theorems serve arithmetic modulo m.
- **Object graphs in archives** (`ObjectGraph`, `GraphWriter`, `GraphSharing`, `GraphReader`, `GraphRoundTrip`,
  `GraphIsomorphism`, `GraphExamples`, `Serializer`, `RefCountObj`): the writer numbers a shared object before its body
  and the reader registers it after; sessions of any roots come back as copies with their ids and reference counts, and
  as the same graph exactly when no plain object is mentioned twice.
- **Checksums and digests** (`Crc32`, `CrcBursts`, `BlockHash`, `Md5`, `Haval`, `Sha`): table-driven division against
  bit-at-a-time division, burst detection, and buffering, counters and padding over any division of the message into
  pieces.
- **Containers and codecs** (`HashTable`, `WideString`, `MemoryArchive`, `ByteOrder`, `CodeConvert`, `TypedArchive`,
  `DisplayEncoder`, `CmdLineGrammar`, `CmdLineParser`, `CmdLineSessions`, `PathElements`, `FullPath`, `GrowHeap`, with
  `Bytes` and `Wrappers` for their machine and optional types): each refines a simple object (a map, independent values,
  a byte sequence with a position, an inverse pair, a grammar, a stack, disjoint intervals), and for the stateful ones
  that is proved over every run of operations.

Code that changes things step by step is modelled by methods on classes and arrays, each with its loops; their contracts
name specification functions, and the lemmas are about those functions. Exceptions are failure results. Proofs are kept
small with `hide`.

Where the code falls short of what its documentation promises, the code is kept and the exact condition is proved:
`Euclid.MultiplicativeInverse` (unreduced arguments), `HashTable.RemoveCorrect` (keys that share a slot),
`SerializerRun.SharedCrc` (a CRC shared between the two creation maps), `GraphIsomorphism.IsomorphicExactly` (plain
objects with two links to them are written twice), `TypedArchive.StorageSizeTooLarge` (`GetStorageSize` counts a
four-byte length where two bytes are written), `MemoryArchive.SeekExact` (offsets beyond 32 bits),
`DisplayEncoder.RoundTrip` (configurations that leave the backslash alone), `FullPath.FixedPoint` and
`FullPath.TwoSteps` (names that lead back to the root resolve to an empty string), `FullPath.UnresolvedDirectory` (the
dots of a directory are not resolved), `FullPath.BecomesAbsolute` (a relative directory that is walked out of),
`WideString.Assign` (the only handle of a buffer assigned to itself) and `GrowHeap.Malloc` (requests within seven bytes
of the top of `size_t`). Concrete failing inputs are `Euclid.UnreducedArgumentFails`, `HashTable.LosesAnother`,
`GraphExamples.ComesBackAsOther`, `GraphExamples.SharingLost`, `MemoryArchive.SeekWraps`, `WideString.SelfAssigned`,
`FullPath.ParentOfRoot`, `FullPath.DirectoryDotsKept` and `FullPath.OutOfRelative`.

`dafny verify dfyconfig.toml` checks the project.

## Model

| member | source | states |
|---|---|---|
| `IntMultiplication.StripTwos` | src/cryptlib/algebra.h:334-339 | halving a window power while it is even moves doublings from before the addition to after it: the window keeps its value and neither counter goes below zero |
| `IntMultiplication.OddMultipleTable` | src/cryptlib/algebra.h:311-319 | entry i is (2i+1) times the base, for every table size |
| `IntMultiplication.FlushWindow` | src/cryptlib/algebra.h:330-355 | after a flush the result is the exponent shifted down to the flushed position, times the base; every table index read is in range |
| `IntMultiplication.IntMultiply` | src/cryptlib/algebra.h:305-359 | the exponent-fold sum of the base, for every natural exponent and every window size |
| `CascadeMultiplication.WindowTable` | src/cryptlib/algebra.h:367-394 | the partly filled table holds p*x + q*y at every index (q<<w)+p with p or q odd, for each of the three window widths |
| `CascadeMultiplication.ReadEntry` | src/cryptlib/algebra.h:416-427 | an index that the main loop reads is inside the table and at a filled entry |
| `CascadeMultiplication.FlushWindow` | src/cryptlib/algebra.h:404-430 | after a flush the result is e1 and e2 shifted down to the flushed position, times x and y and added |
| `CascadeMultiplication.CascadeIntMultiply` | src/cryptlib/algebra.h:361-434 | e1*x + e2*y for all natural exponents, zero included |
| `ExponentHeap.RootIsLargest` | src/cryptlib/algebra.h:448-464 | in heap order by exponent the first element has the largest exponent |
| `ExponentHeap.PushHeap` | src/cryptlib/algebra.h:463 | the last element joins the heap: heap order over the whole range, same elements |
| `ExponentHeap.PopHeap` | src/cryptlib/algebra.h:449 | the largest element goes last, the rest is a heap, same elements |
| `ExponentHeap.MakeHeap` | src/cryptlib/algebra.h:448 | heap order by exponent over the whole range, same elements |
| `GeneralCascade.PermutationKeepsSum` | src/cryptlib/algebra.h:448-464 | in a commutative group the sum of exponent times element does not depend on the order of the pairs |
| `GeneralCascade.StepKeepsSum` | src/cryptlib/algebra.h:451-465 | dividing the largest exponent by the next largest and accumulating the quotient multiple keeps the sum and lowers the total of the exponents |
| `GeneralCascade.DivideLargest` | src/cryptlib/algebra.h:451-465 | one turn of the loop keeps the sum and the heap and strictly lowers the total exponent |
| `GeneralCascade.OnlyLastRemains` | src/cryptlib/algebra.h:451-468 | when all exponents but the last are zero, the last multiple is the sum |
| `GeneralCascade.GeneralCascadeMultiplication` | src/cryptlib/algebra.h:436-469 | the sum of exponent times element over any non-empty list of pairs in a commutative group |
| `Exponentiation.QuotientRingLawful` | src/cryptlib/algebra.h:169-219 | multiplication modulo m is a commutative group operation up to congruence, for every non-zero modulus |
| `Exponentiation.PowerMod` | src/cryptlib/algebra.h:471-474 | Exponentiate over the integers modulo m is congruent to the integer power |
| `Exponentiation.CascadePowerMod` | src/cryptlib/algebra.h:476-479 | CascadeExponentiate over the integers modulo m is congruent to the product of the two powers |
| `Exponentiation.Exponentiate` | src/cryptlib/algebra.h:471-474 | the exponent-fold product of the base in the multiplicative group of a ring |
| `Euclid.RemaindersIsGcd` | src/cryptlib/algebra.h:271-283 | the last non-zero remainder is divided by every common divisor and divides both arguments |
| `Euclid.Gcd` | src/cryptlib/algebra.h:271-283 | the loop with the three rotating slots returns a greatest common divisor of any two integers |
| `Euclid.InverseFromCorrect` | src/cryptlib/algebra.h:285-303 | with each live slot g congruent to its coefficient times a, the extended loop ends in an inverse for coprime arguments and in zero otherwise |
| `Euclid.MultiplicativeInverse` | src/cryptlib/algebra.h:285-303 | the result times a is congruent to 1 if and only if the modulus is 1, or a is coprime to it and below it in magnitude; whenever it is not, the result is zero |
| `Euclid.InverseExists` | src/cryptlib/algebra.h:285-303 | an inverse exists exactly for arguments coprime to the modulus |
| `Euclid.UnreducedArgumentFails` | src/cryptlib/algebra.h:285-303 | 3 modulo 2 has an inverse and the code returns zero |
| `ObjectGraph.AddKeepsInverse` | src/core/srefcounttbl.cpp:85-107 | refused exactly when the object is already in the table or the id asked for is taken; otherwise the object gets the id asked for, or for zero the one above the largest, and the two id tables stay inverse to each other |
| `Serializer.RefCountTable.LookupObj` | src/core/srefcounttbl.cpp:62-70 | the id of an object, zero for an unknown one |
| `Serializer.RefCountTable.LookupId` | src/core/srefcounttbl.cpp:73-80 | the object of an id, if there is one |
| `Serializer.RefCountTable.AddObj` | src/core/srefcounttbl.cpp:85-107 | the table and the id that the specification gives, or its failure with the table unchanged |
| `Serializer.RefCountTable.Clear` | src/core/srefcounttbl.cpp:55-59 | an empty table |
| `Serializer.SerializerImpl.WriteObjectDynCreate` | src/core/serializerimpl.cpp:165-236 | appends the words of the object record and of everything it owns, the record starting with type CRC, version and 0xffffffff, and leaves the writer table of the specification; an unregistered type is an error |
| `Serializer.RecordWords` | src/core/serializerimpl.cpp:205-208 | every record that is written starts with the CRC of its type, the version and 0xffffffff |
| `Serializer.RecordId` | src/core/serializerimpl.cpp:210-235 | the fourth word of a record is 0 for a plain object and for any other its id in the table afterwards, from 1 to the number of ids |
| `Serializer.FlatRecord` | src/core/serializerimpl.cpp:205-235 | an object without links is written as four words and one for each member, in order; one that was written before as four words |
| `Serializer.SerializerImpl.ReadObjectDynCreate` | src/core/serializerimpl.cpp:241-331 | consumes one record and builds the objects, the table and the counts of the specification; errors included |
| `Serializer.CreationMaps.RegisterSerializable` | src/core/serializerimpl.cpp:105-119 | a type is registered if and only if no registered plain type has its CRC |
| `Serializer.CreationMaps.RegisterSerializableRefCt` | src/core/serializerimpl.cpp:121-135 | a type is registered if and only if no registered reference-counted type has its CRC |
| `Serializer.SerializerImpl.WriteNew` | src/core/serializerimpl.cpp:215-236 | a new object: its new id and its body after the header, with the id registered before the body |
| `Serializer.SerializerImpl.Init` | src/core/serializerimpl.cpp:142-153 | an empty id table |
| `Serializer.SerializerImpl.WriteStart` | src/core/serializerimpl.cpp:205-208 | type CRC, version and 0xffffffff, in this order |
| `Serializer.CreationMaps.constructor` | src/core/serializerimpl.cpp:41-42 | no type registered |
| `GraphRoundTrip.ObjectRoundTrip` | src/core/serializerimpl.cpp:165-331 | one record anywhere in the archive: the reader consumes exactly its words, makes one new object, a copy, for each body that the writer wrote, and the tables and counts stay in correspondence |
| `GraphRoundTrip.CloseObject` | src/core/serializerimpl.cpp:298-318 | registering the finished object under the id of the writer keeps the correspondence, with count one, although the writer registered it before its body |
| `GraphIsomorphism.RoundTrip` | src/core/serializerimpl.cpp:142-331 | any session: the roots of a registered acyclic graph are written one after the other and read back as copies, over any heap and with anything after them in the archive. The new objects are one for each body written, at the next addresses in turn, each with the type, the data and the links of its object; ids are 1..n in the order of first visits, the same in both tables, and each shared object ends with a count equal to the number of records that name it; existing objects are untouched |
| `GraphIsomorphism.IsomorphicExactly` | src/core/serializerimpl.cpp:142-331 | there is a one-to-one map from the objects that the roots lead to onto the new objects, keeping types, data, links and roots, if and only if every plain object among them is mentioned once, as a root or by a link |
| `GraphIsomorphism.OneObjectExactly` | src/core/serializerimpl.cpp:165-331 | one object written and read back gives an isomorphic graph if and only if no plain object that it leads to is the target of two links |
| `GraphIsomorphism.CutShort` | src/core/serializerimpl.cpp:142-331 | the archive of a session, cut short anywhere, is not read to the end |
| `GraphIsomorphism.SharingExact` | src/core/serializerimpl.cpp:165-331 | new objects made from reference-counted ones are equal if and only if these were equal |
| `GraphIsomorphism.ReadsBackExactly` | src/core/serializerimpl.cpp:165-331 | for a graph whose other types are registered, the root object is written and read back with its type if and only if the map of its kind gives that type for its CRC |
| `GraphExamples.SharingLost` | src/core/serializerimpl.cpp:227-235 | a plain pair with two links to one plain leaf comes back with links to two different objects, and not isomorphic |
| `GraphExamples.PairsAndLeavesExist` | src/core/serializerimpl.cpp:48-76 | the CRCs of the type names cPair and cLeaf differ, so both can be registered |
| `GraphExamples.ComesBackAsOther` | src/core/serializerimpl.cpp:48-135 | the type names cHphzaneae and cKaxvopctg have the same CRC; registered one in each map, an object of the plain type comes back as an object of the other |
| `GraphSharing.WrittenTwice` | src/core/serializerimpl.cpp:165-236 | a session writes no body twice if and only if every plain object that its roots lead to is mentioned once |
| `GraphSharing.MadeIsReachable` | src/core/serializerimpl.cpp:165-236 | the bodies written are those of the objects that the roots lead to |
| `GraphWriter.RootsEffect` | src/core/serializerimpl.cpp:165-236 | writing a registered acyclic graph never fails; the body of a shared object is written when it enters the table and only then, that of a plain one once for each link followed to it; ids are first named in the order 1, 2, 3 |
| `GraphReader.PlainHasOneOwner` | src/core/serializerimpl.cpp:241-331 | whatever the archive: no two links of the objects read in a session lead to the same object without an id |
| `GraphReader.HeaderRead` | src/core/serializerimpl.cpp:241-300 | fewer than four words are the end of the archive, a CRC that the map of the kind does not have is an unknown type, and version and size do not matter |
| `GraphReader.ReadRootsCut` | src/core/serializerimpl.cpp:241-331 | reading the beginning of an archive gives the same objects as reading all of it, or the end of the archive when it was cut within what was read |
| `SerializerRun.WriteAndRead` | src/core/serializerimpl.cpp:142-331 | the imperative writer and the imperative reader, one call for each root: the copies, ids and counts of that session, and an isomorphic graph if and only if every plain object is mentioned once |
| `SerializerRun.WriteSession` | src/core/serializerimpl.cpp:142-236 | a new writer, one call for each root: the words and the table of the session |
| `SerializerRun.ReadSession` | src/core/serializerimpl.cpp:241-331 | as many calls of the reader: the objects, the table and the words left of the session |
| `SerializerRun.SharedCrc` | src/core/serializerimpl.cpp:105-135 | an object of a registered plain type is written and read back with its type if and only if no reference-counted type has its CRC, which the two separate maps allow; everything else in the graph registered |
| `RefCountObj.Run` | src/core/refcountobj.cpp:73-146 | over every run of AddRef and Release by owners the count is the number of references held, and the object is deleted exactly when there are none |
| `RefCountObj.RefCountObj.constructor` | src/core/refcountobj.cpp:73-76 | one reference, the creator |
| `RefCountObj.RefCountObj.AddRef` | src/core/refcountobj.cpp:120-134 | one reference more; refused, with the count unchanged, exactly when there are none, which is when the object is deleted |
| `RefCountObj.RefCountObj.Release` | src/core/refcountobj.cpp:136-146 | one reference fewer, and deletion at none |
| `Crc32.TableIsEightSteps` | src/core/crc32.cpp:87-140 | each of the 256 entries of crctab is eight shift-and-subtract steps by 0x04c11db7 of its index |
| `Crc32.TableLinear` | src/core/crc32.cpp:87-140 | the entry of i xor j is the exclusive or of the entries |
| `Crc32.ComputeIsStep8` | src/core/crc32.cpp:148-149 | one table step is eight division steps with the byte entering at the top |
| `Crc32.ComputeAllIsDivision` | src/core/crc32.cpp:157-165 | table-driven and bit-at-a-time division agree on every message and start value |
| `Crc32.CrcInfo.Update` | src/core/crc32.cpp:157-165 | over any pieces the register is the remainder of all bytes fed and the length is theirs modulo 2^32 |
| `Crc32.CrcInfo.Finit` | src/core/crc32.cpp:167-176 | the final value is the cksum utility of IEEE Std 1003.2: with all bits inverted, the remainder of the message followed by the digits of its length modulo 4294967296 to base 256, least significant first without leading zeros |
| `Crc32.LengthIs` | src/core/crc32.cpp:169-173 | the bytes after the message are the digits of the length to base 256, the last one not zero |
| `Crc32.CksumIs` | src/core/crc32.cpp:167-176 | the checksum of any message in those terms |
| `Crc32.CrcInfo.constructor` | src/core/crc32.cpp:151-155 | the remainder and length of no bytes |
| `CrcBursts.BurstDetected` | src/core/crc32.cpp:148-176 | two messages of equal length that differ only within 32 consecutive bits, wherever these start, have different final CRCs |
| `CrcBursts.UndetectedExactly` | src/core/crc32.cpp:148-176 | two messages of one length have the same final CRC if and only if the polynomial divides their exclusive or |
| `CrcBursts.DivideLinear` | src/core/crc32.cpp:148-165 | division is linear over exclusive or |
| `CrcBursts.FourBytesDetected` | src/core/crc32.cpp:148-176 | in particular messages that differ only within four consecutive bytes |
| `CrcBursts.WindowDiffers` | src/core/crc32.cpp:148-165 | from one register, two different runs of at most 32 bits end in different registers |
| `CrcBursts.SuffixKeepsDifference` | src/core/crc32.cpp:148-165 | equal bits never bring two different registers together |
| `CrcBursts.DivideIsRun` | src/core/crc32.cpp:148-165 | dividing byte by byte is running over the bits of the message, most significant first |
| `CrcBursts.MessageOfBits` | src/core/crc32.cpp:157-165 | different messages of equal length have different bits |
| `BlockHash.FoldConcat` | src/core/md5.cpp:125-161 | feeding a and then b is feeding their concatenation; of a only the chaining value and the bytes after its last whole block matter |
| `BlockHash.BytesAreMemory` | src/core/md5.cpp:192-200 | the bytes of a word are its digits to base 256, low byte first |
| `BlockHash.CounterStep` | src/core/md5.cpp:134-145 | the two-word counter with its carry test is the bit length modulo 2^64 after every addition |
| `BlockHash.CarryTests` | src/core/haval.cpp:366-370 | comparing the new low word with the old one and with the addend detect the same carry |
| `BlockHash.PaddingReaches56` | src/core/md5.cpp:178-180 | the padding of MD5, and of SHA (sha.cpp:300-318), is the one that reaches 56 modulo 64 with 1 to 64 bytes |
| `Md5.Md5Context.Update` | src/core/md5.cpp:125-161 | after any call the buffers and counter are those of the concatenation of everything fed |
| `Md5.Md5Context.Final` | src/core/md5.cpp:165-201 | the state is the fold of Transform, from the four initial words, over the message with a one bit, the fewest zeros and the bit length modulo 2^64 low byte first, in whole blocks of 64 bytes (sections 3.1 to 3.4 of RFC 1321); the digest bytes are its words, low byte first |
| `Md5.PaddedIs` | src/core/md5.cpp:165-192 | the padded message: whole blocks, a one bit, the fewest zeros, the bit length low byte first |
| `Md5.OneBlock` | src/core/md5.cpp:148-158 | Transform gets the numbers of the sixteen words of a block, low byte first |
| `Md5.DigestOf` | src/core/md5.cpp:110-201 | MD5 of a message fed in any pieces depends on the whole message only |
| `Md5.Md5Context.constructor` | src/core/md5.cpp:110-121 | the state of the empty message |
| `Haval.HavalState.HashBlock` | src/core/haval.cpp:254-264 | the little-endian in-place block and the portable ch2uint block are the same words |
| `Haval.HavalState.Hash` | src/core/haval.cpp:354-408 | after any call fingerprint, count and pending bytes are those of the concatenation, on both builds |
| `Haval.HavalState.End` | src/core/haval.cpp:412-446 | the result is the tailored fold over message, padding to 118 modulo 128 and the ten-byte tail, from which version 1, 3 passes, 128 bits and the bit length are read back; count, fingerprint, pending bytes and block are zero afterwards |
| `Haval.PaddedIs` | src/core/haval.cpp:412-433 | the padded message: whole blocks, a one bit, the fewest zeros, two bytes that hold version, passes and fingerprint length, and the bit length low byte first |
| `Haval.OneBlock` | src/core/haval.cpp:254-264 | the block function gets the numbers of the 32 words of a block, low byte first |
| `Haval.PaddingReaches118` | src/core/haval.cpp:430-433 | the padding is the one that reaches 118 modulo 128 |
| `Haval.FingerprintOf` | src/core/haval.cpp:337-446 | HAVAL of a message fed in any pieces, on either build, depends on the whole message only |
| `Haval.HavalState.constructor` | src/core/haval.cpp:337-350 | the state of the empty message |
| `Haval.HavalState.Uint2Ch` | src/core/haval.cpp:266-278 | the bytes of the words, low byte first |
| `Sha.ReverseWordIs` | src/core/sha.cpp:243-254 | the two mask-and-shift lines of byteReverse turn the word of four bytes in one order into that of the other |
| `Sha.ShsInfo.ByteReverse` | src/core/sha.cpp:243-254 | the words of the buffer in reversed byte order, the rest unchanged |
| `Sha.ShsInfo.Update` | src/core/sha.cpp:262-285 | after whole blocks, a call of any length leaves digest, buffer and counter of the concatenation |
| `Sha.ShsInfo.Final` | src/core/sha.cpp:287-327 | the digest is the fold of shsTransform, from the five initial words, over the message padded as in section 4 of FIPS 180-1, the bit length modulo 2^64 high byte first, in the one-block and the two-block case |
| `Sha.PaddedIs` | src/core/sha.cpp:287-318 | the padded message: whole blocks, a one bit, the fewest zeros, the bit length high byte first |
| `Sha.OneBlockRead` | src/core/sha.cpp:262-285 | shsTransform gets the numbers of the sixteen words of a block, high byte first |
| `Sha.DigestOf` | src/core/sha.cpp:157-327 | SHA of a message fed in whole blocks and one last piece depends on the whole message only |
| `Sha.ShsInfo.constructor` | src/core/sha.cpp:157-168 | the state of the empty message |
| `HashTable.HashTable.Hash` | src/core/hashtable.h:508-520 | the slot is in range for every key, the empty one included |
| `HashTable.MixBits` | src/core/hashtable.h:508-520 | a key byte moves the bits of the register up by nine, keeps 32 of them and inverts those that are in the byte |
| `HashTable.XorBit` | src/core/hashtable.h:508-520 | bit by bit, the exclusive or |
| `HashTable.SlotIs` | src/core/hashtable.h:508-520 | the first byte is in the register before it enters; each byte enters, and then the register is taken modulo the size |
| `HashTable.HashTable.Insert` | src/core/hashtable.h:338-391 | the table holds the map with the key bound to the new data; the result says whether the key was there, and the value count grows exactly when it was not |
| `HashTable.HashTable.Lookup` | src/core/hashtable.h:403-425 | found exactly when the key is in the map, with its value |
| `HashTable.HashTable.Remove` | src/core/hashtable.h:432-463 | what the comparison with the chain head does: a match drops the whole chain, anything else nothing |
| `HashTable.RemoveCorrect` | src/core/hashtable.h:432-463 | Remove takes away its key and nothing else if and only if the key is not in the map or no other key of the map has its slot |
| `HashTable.BothInSlotZero` | src/core/hashtable.h:508-520 | the empty key and the key of one zero byte have slot 0 in a table of any size |
| `HashTable.LosesAnother` | src/core/hashtable.h:432-463 | in a table of any size: both of these keys inserted, the first removed, and neither is found |
| `HashTable.ReplaceEntry` | src/core/hashtable.h:359-389 | new data in one entry keeps the invariant (each key once, in the chain of its slot) and changes that key of the map only |
| `HashTable.AppendEntry` | src/core/hashtable.h:342-386 | an entry added at the end of the chain of its slot keeps the invariant and adds that key to the map only |
| `HashTable.HashTableIter.SeekBegin` | src/core/hashtable.h:238-245 | what is left to visit is every entry, bucket by bucket |
| `HashTable.HashTableIter.Next` | src/core/hashtable.h:253-273 | exactly one entry fewer is left, and past the end nothing changes |
| `HashTable.EachOnce` | src/core/hashtable.h:238-273 | the iteration order holds every entry of the map, each key once, and as many as the map has |
| `HashTable.Traverse` | src/core/hashtable.h:229-293 | the loop over an iterator ends and visits every key with its value exactly once |
| `HashTable.Run` | src/core/hashtable.h:338-425 | every run of Insert and Lookup on a new table answers as a finite map does, and the value count is the size of the map |
| `HashTable.HashTable.constructor` | src/core/hashtable.h:299-308 | the empty map |
| `HashTable.HashTableIter.SeekNextValid` | src/core/hashtable.h:260-273 | past the current node and over empty buckets, to the next entry or the end |
| `HashTable.HashTableIter.Done` | src/core/hashtable.h:248-251 | true exactly when nothing is left to visit |
| `HashTable.HashTableIter.Key` | src/core/hashtable.h:276-280 | the key of the next entry to visit |
| `HashTable.HashTableIter.Val` | src/core/hashtable.h:282-286 | its value |
| `WideString.SwappedTwice` | src/core/wchar16.cpp:234-250 | swapbytes undoes itself |
| `WideString.SwappedAt` | src/core/wchar16.cpp:234-250 | a swapped text has in each place the character with the low byte of the original as its high byte and the high byte as its low one |
| `WideString.FromChars` | src/core/wchar16.cpp:102-109 | a new handle with a buffer of its own and the given characters; no other text changes |
| `WideString.Copy` | src/core/wchar16.cpp:95-100 | a new handle with the same text, sharing the buffer; counts are again the numbers of live handles |
| `WideString.Destroy` | src/core/wchar16.cpp:111-115 | the buffer is deleted exactly when no other live handle is on it; no other text changes |
| `WideString.Assign` | src/core/wchar16.cpp:117-127 | the text of the right-hand side, no other text changed and counts again the numbers of live handles, except that a handle alone on its buffer and assigned to itself deletes the buffer that it then counts: exactly in that case |
| `WideString.Unshare` | src/core/wchar16.cpp:207-212 | afterwards the handle is alone on its buffer, and no text has changed |
| `WideString.Write` | src/core/wchar16.cpp:197-215 | one character of one handle changes, or out_of_range with nothing changed; no other text changes |
| `WideString.Resize` | src/core/wchar16.cpp:217-232 | the text cut, or extended with NUL characters; no other text changes |
| `WideString.SwapBytes` | src/core/wchar16.cpp:234-250 | each character of one handle has its two bytes exchanged; no other text changes |
| `WideString.Step` | src/core/wchar16.cpp:91-250 | one operation of a program leaves the handles representing the independent values changed at one name, and the buffers regrouped as copying and writing do |
| `WideString.Run` | src/core/wchar16.cpp:91-313 | every run of constructions, copies, assignments, writes, resizes, swaps and destructions that does not assign a name alone on its buffer to itself ends with the texts that independent values would have, with reference counts equal to the numbers of live handles, and with names on one buffer exactly as copying and writing leave them |
| `WideString.Reassign` | src/core/wchar16.cpp:117-127 | an assignment by name: it counts a deleted buffer if and only if a name alone on its buffer is assigned to itself, and is right otherwise |
| `WideString.SelfAssigned` | src/core/wchar16.cpp:117-127 | a string of its own, assigned to itself, is counted after it was deleted |
| `WideString.Empty` | src/core/wchar16.cpp:91-93 | a new handle without a buffer and the empty text |
| `WideString.Impl.Resize` | src/core/wchar16.cpp:290-313 | the characters cut or extended with NUL, in a new allocation unless the length stays |
| `WideString.Impl.SwapAll` | src/core/wchar16.cpp:244-248 | every character of the buffer has its two bytes exchanged |
| `MemoryArchive.MemoryArchive.Seek` | src/core/archive.cpp:313-335 | with the casts and 32-bit sums of the source: the position moves to the stored target if the target is not past the end, else failure and no change |
| `MemoryArchive.SeekPositions` | src/core/archive.cpp:313-335 | the position counted from the start, from itself and from the end, and an offset added |
| `MemoryArchive.SeekExact` | src/core/archive.cpp:313-335 | for every 64-bit offset, a seek does what the unbounded sum says if and only if the target is an int, or it is above all ints and the value compared with the size is above that too |
| `MemoryArchive.SeekWraps` | src/core/archive.cpp:319-321 | on an empty archive a seek by 2^32 from the current position succeeds |
| `MemoryArchive.MemoryArchive.Read` | src/core/archive.cpp:371-382 | the bytes from the position on, as many as there are up to the count, and the position after them, when position and count add up to an int |
| `MemoryArchive.ReadBack` | src/core/archive.cpp:371-396 | what was written is read back after a seek to its start, and one read is two shorter ones |
| `MemoryArchive.MemoryArchive.Write` | src/core/archive.cpp:384-396 | the bytes overwritten or extended at the position, everything else kept |
| `MemoryArchive.MemoryArchive.AllocateMemory` | src/core/archive.cpp:398-456 | the old contents survive any number of doublings; capacity is 0 or 1024 doubled some number of times and below twice the size once above 1024; the shrinking branch is not reached |
| `MemoryArchive.CapacityIs` | src/core/archive.cpp:398-425 | the capacity is 0, 1024, or more, a multiple of 2048 and below twice the size |
| `MemoryArchive.WrittenTwice` | src/core/archive.cpp:384-396 | two writes one after the other are the write of both |
| `MemoryArchive.MemoryArchive.Copy` | src/core/archive.cpp:201-221 | what the other archive has from its position, up to the amount, arrives in order, whatever the number of 2048-byte turns; the count returned is exact |
| `MemoryArchive.Run` | src/core/archive.cpp:294-456 | every run of seeks that fit in an int and of reads and writes inside the archive answers on a new one as a byte sequence with a position, and the capacity keeps its bounds |
| `MemoryArchive.MemoryArchive.constructor` | src/core/archive.cpp:294-301 | no bytes, position 0 |
| `MemoryArchive.MemoryArchive.EndOfFile` | src/core/archive.cpp:308-311 | true exactly when the position is at the end or behind it |
| `ByteOrder.SwapReverses` | src/core/types.h:155-172 | each of the three swaps reverses the bytes of its word |
| `ByteOrder.SwapTwice` | src/core/types.h:155-172 | each of the three swaps undoes itself |
| `ByteOrder.MemoryAt` | src/core/types.h:155-172 | byte i in memory is digit i to base 256 |
| `ByteOrder.Wire` | src/core/types.h:175-192 | the bytes written do not depend on the host: most significant first |
| `ByteOrder.Unwire` | src/core/types.h:175-192 | nor does the value read, and every byte pattern is the wire form of a value |
| `TypedArchive.IntRoundTrip` | src/core/archive.cpp:83-155 | an integer of 16, 32 or 64 bits comes back from its wire form |
| `TypedArchive.WireRoundTrip` | src/core/archive.cpp:83-106 | every wire form is that of the integer read from it |
| `TypedArchive.WriteInt` | src/core/archive.cpp:139-160 | the wire form is written at the position, on either host |
| `TypedArchive.WireBytes` | src/core/archive.cpp:139-160 | the bytes of an integer are the digits of its two's complement to base 256, most significant first |
| `TypedArchive.ReadInt` | src/core/archive.cpp:83-106 | the integer of the next bytes, or the end-of-file error after consuming what there is |
| `TypedArchive.WriteString` | src/core/archive.cpp:162-181 | a 16-bit count and the converted characters, or the too-long error above 32767 characters with nothing written |
| `TypedArchive.StringBytes` | src/core/archive.cpp:162-181 | the bytes of a string: the number of its characters and the characters, each in two bytes, high byte first |
| `TypedArchive.ReadString` | src/core/archive.cpp:112-132 | for every archive contents: the string, or the end-of-file or conversion error, or a negative length, which fails an assertion |
| `TypedArchive.NegativeLength` | src/core/archive.cpp:112-120 | the failing length is exactly the one with its top bit set |
| `TypedArchive.StorageSizeTooLarge` | src/core/archive.cpp:189-199 | GetStorageSize is never the number of bytes that WriteString writes: it is two more, and two more again for each byte from the first NUL on |
| `TypedArchive.TakeWire` | src/core/archive.cpp:83-187 | wherever a written record stands, the matching read returns its value and stops right after it |
| `TypedArchive.TakeCutShort` | src/core/archive.cpp:83-137 | an integer or string cut short is the end-of-file error, a blob cut short a shorter blob |
| `TypedArchive.RoundTrip` | src/core/archive.cpp:83-187 | any sequence of integers, strings and blobs written on one host, a seek to the start, and the matching reads on another host: the same values if and only if no string has a NUL, each string cut at its first NUL otherwise |
| `CodeConvert.NarrowWide` | src/core/codeconvert.cpp:1386-1446 | 8 to 16 bits and back gives what is before the first NUL; the same string if and only if it has none |
| `CodeConvert.WideNarrow` | src/core/codeconvert.cpp:1386-1446 | 16 to 8 bits and back gives the same string if and only if each character is 1..0x7F or 0xE880..0xE8FF |
| `CodeConvert.WideOrder` | src/core/codeconvert.cpp:1417-1446 | ASCII stays as it is, and the other bytes go in order to 0xE880..0xE8FF |
| `CodeConvert.NarrowedIs` | src/core/codeconvert.cpp:1386-1415 | to 8 bits exactly for characters up to 0xFF and in 0xE800..0xE8FF, each becoming its low byte |
| `CodeConvert.ConvertToNarrow` | src/core/codeconvert.cpp:1386-1415 | the pointer loop writes the conversion and its NUL, or throws exactly when a character before the first NUL has no byte |
| `CodeConvert.ConvertToWide` | src/core/codeconvert.cpp:1417-1446 | the pointer loop writes the conversion and its NUL and never throws |
| `StringUtil.KeyInjective` | src/core/stringutil.cpp:84-92 | two 16-bit strings with the same key bytes are the same |
| `StringUtil.StringUtil.ToNarrow` | src/core/stringutil.cpp:131-180 | with or without the cache the result is that of the converter, and the cache keeps agreeing with it |
| `StringUtil.StringUtil.ConvertAll` | src/core/stringutil.cpp:131-180 | any sequence of conversions through the cache answers as the converter alone |
| `StringUtil.StringUtil.ToWide` | src/core/stringutil.cpp:182-223 | the conversion of the string |
| `DisplayEncoder.HexRoundTrip` | src/core/displayencoder.cpp:502-541 | two lower-case hexadecimal digits are inverted exactly |
| `DisplayEncoder.EncodedForm` | src/core/displayencoder.cpp:315-383 | a character is left alone, or becomes one of the escape forms whose identifier belongs to an encoder that is on |
| `DisplayEncoder.CodeOf` | src/core/displayencoder.cpp:315-383 | the code of every character for encoders on and off: backslash, x and two lower-case hexadecimal digits for a non-printable one; backslash and itself for a backslash or a quote, without the backslash when no round trip is wanted; itself otherwise |
| `DisplayEncoder.LeftAlone` | src/core/displayencoder.cpp:613-660 | exactly which characters are left alone |
| `DisplayEncoder.HexDigits` | src/core/displayencoder.cpp:526-541 | the two digits of a byte, lower case |
| `DisplayEncoder.UpperCaseDigits` | src/core/displayencoder.cpp:502-523 | upper-case digits are read as lower-case ones |
| `DisplayEncoder.DecodeErrors` | src/core/displayencoder.cpp:662-720 | an escape at the end, an unknown one and one with too few digits are errors |
| `DisplayEncoder.DecodeCode` | src/core/displayencoder.cpp:662-720 | decoding the code of a character gives the character and continues exactly after the code |
| `DisplayEncoder.Restores` | src/core/displayencoder.cpp:613-720 | decoding what was encoded gives the text up to its first NUL, whenever the backslash is escaped |
| `DisplayEncoder.RoundTrip` | src/core/displayencoder.cpp:613-720 | for every set of encoders, flags and printability: Decode undoes Encode on all NUL-free texts if and only if the backslash is escaped |
| `DisplayEncoder.WhenEscaped` | src/core/displayencoder.cpp:565-590 | the backslash is escaped exactly when the backslash encoder is on with the round-trip flag, or the non-printable encoder is on and the locale calls the backslash non-printable |
| `DisplayEncoder.OnlyShown` | src/core/displayencoder.cpp:242-272 | with the non-printable encoder on, the encoded text has only printable characters and allowed white space |
| `DisplayEncoder.Encoder.Encode` | src/core/displayencoder.cpp:613-660 | the iterator loop computes the encoding, character by character, first encoder first |
| `DisplayEncoder.Encoder.Decode` | src/core/displayencoder.cpp:662-720 | the iterator loop computes the decoding or its error |
| `DisplayEncoder.PopNextChar` | src/core/charutil.cpp:67-151 | the next character and the position after it; none at the end or at a NUL |
| `DisplayEncoder.Encoder.constructor` | src/core/displayencoder.cpp:565-590 | the encoders that are on, in the order non-narrowable, non-printable, backslash, quote; and whether they escape the backslash |
| `DisplayEncoder.Encoder.DecodeHexToChar` | src/core/displayencoder.cpp:543-558 | the character of the two digits after the identifier, or an error when there are fewer |
| `CmdLineGrammar.ScanSound` | src/core/cmdlineparser.cpp:92-247 | an accepted list is in the grammar (declared arity, no repeats unless allowed, final parameters last and as declared) and flattens to the arguments |
| `CmdLineGrammar.ScanComplete` | src/core/cmdlineparser.cpp:92-247 | every list in the grammar is what its own spelling is parsed to |
| `CmdLineGrammar.ScanIsGrammar` | src/core/cmdlineparser.cpp:92-247 | the scanner accepts exactly the grammar |
| `CmdLineGrammar.Accepted` | src/core/cmdlineparser.cpp:92-329 | the parse succeeds with a list if and only if the list is in the grammar, flattens to argv[1..], has no mutually exclusive pair and keeps every dependency, mutual ones both ways |
| `CmdLineParser.CmdLineParser.AddArg` | src/core/cmdlineparser.cpp:52-76 | the switch is known under its name and, after a second dash, under its alias; without names the final list is declared |
| `CmdLineParser.CmdLineParser.Parse` | src/core/cmdlineparser.cpp:92-247 | the list, or the failure that the scanner and the relations give, for every command line; the loop ends although its branches move the index |
| `CmdLineParser.CmdLineParser.ParseParams` | src/core/cmdlineparser.cpp:132-176 | as many parameters as declared are taken, or a count that does not fit is found |
| `CmdLineParser.CmdLineParser.TestMutEx` | src/core/cmdlineparser.cpp:253-273 | an error exactly when both switches of some pair are present |
| `CmdLineParser.CmdLineParser.TestDependency` | src/core/cmdlineparser.cpp:278-329 | an error exactly when some dependency fails, in either direction for mutual ones |
| `CmdLineParser.CmdLineParser.ArgInList` | src/core/cmdlineparser.cpp:421-430 | whether an entry has the id |
| `CmdLineParser.CmdLineIter.SeekToArg` | src/core/cmdlineparser.cpp:440-449 | found exactly when an entry has the id, and else the iterator is done |
| `CmdLineParser.CmdLineParser.constructor` | src/core/cmdlineparser.cpp:41-43 | no switches, no parameters of the program, no relations |
| `CmdLineParser.CmdLineParser.AddMutEx` | src/core/cmdlineparser.cpp:335-341 | one more pair of mutually exclusive switches |
| `CmdLineParser.CmdLineParser.AddDependency` | src/core/cmdlineparser.cpp:346-355 | one more dependency, mutual or not |
| `CmdLineParser.CmdLineParser.ParseSwitch` | src/core/cmdlineparser.cpp:102-178 | one turn of the scanner at a switch, or its failure |
| `CmdLineParser.CmdLineParser.ParseFinal` | src/core/cmdlineparser.cpp:179-231 | the scanner at the parameters of the program, or its failure |
| `PathElements.ElementsConcat` | src/core/unixfsservices.cpp:1133-1169 | the elements of two names joined by a separator are those of the first and then those of the second |
| `PathElements.RenderPush` | src/core/unixfsservices.cpp:861-870 | adding a separator and a name is pushing the name |
| `PathElements.RenderPop` | src/core/unixfsservices.cpp:1090-1114 | cutting the last element off the string is popping the stack, and nothing on an empty one |
| `PathElements.BaseOf` | src/core/unixfsservices.cpp:1046-1075 | a directory name with its duplicate and trailing separators removed is the stack of its elements |
| `PathElements.CutOff` | src/core/unixfsservices.cpp:1090-1114 | of any string the element cut off is the last one, and the elements left are the others |
| `FullPath.GetNextPathElement` | src/core/unixfsservices.cpp:1133-1169 | scanning from the start each time, the element with the index, and false exactly past the last one |
| `FullPath.RemoveLastPathElement` | src/core/unixfsservices.cpp:1090-1114 | the string without its last element and the separators around it, and that element, empty if there is none |
| `FullPath.RemoveDuplicateSeps` | src/core/unixfsservices.cpp:1046-1075 | each run of separators made one, by erasing in place |
| `FullPath.IsRoot` | src/core/unixfsservices.cpp:907-922 | true exactly for the non-empty strings of separators only |
| `FullPath.FullPath` | src/core/unixfsservices.cpp:773-880 | the fold of the elements on the stack of the base directory: a dot ignored, two dots popping, a name pushed; a relative name without a directory resolves as against the current directory, and not without one |
| `FullPath.CurrentDirectory` | src/core/unixfsservices.cpp:803-846 | a relative name without a directory resolves as against the current directory; with a directory the current one does not matter |
| `FullPath.RootStays` | src/core/unixfsservices.cpp:780-802 | separators alone resolve to themselves and the empty name does not resolve |
| `FullPath.DotsCancel` | src/core/unixfsservices.cpp:850-872 | /a/name/../b and /a/./b resolve as /a/b does, for any a, name and b that leave something of the name |
| `FullPath.AbsoluteResult` | src/core/unixfsservices.cpp:773-880 | an absolute name resolves, whatever the directories, to names joined by single separators, without dots |
| `FullPath.FixedPoint` | src/core/unixfsservices.cpp:773-880 | the result of an absolute name resolves to itself, whatever the directories, if the names and parents in it, counted from the root, do not end at depth zero; otherwise it does not resolve |
| `FullPath.EmptyResult` | src/core/unixfsservices.cpp:773-880 | an absolute name resolves to the empty string exactly when its names and parents end at depth zero |
| `FullPath.ParentOfRoot` | src/core/unixfsservices.cpp:773-880 | the parent of the root resolves to the empty string |
| `FullPath.TwoSteps` | src/core/unixfsservices.cpp:773-880 | resolving a relative name against a resolved rooted directory is resolving the two names written together, except for a directory that leads back to the root: its result is empty, so the name is resolved against the current directory |
| `FullPath.UnresolvedDirectory` | src/core/unixfsservices.cpp:773-880 | for a rooted directory that was not resolved the two ways agree for every relative name if and only if the directory has no dots |
| `FullPath.DirectoryDotsKept` | src/core/unixfsservices.cpp:773-880 | x from /a/.. is /a/../x |
| `FullPath.BecomesAbsolute` | src/core/unixfsservices.cpp:773-880 | the result of a relative name against a relative directory starts with a separator if and only if some name of it is met at depth zero, counted from the directory down, and the last depth is not zero |
| `FullPath.OutOfRelative` | src/core/unixfsservices.cpp:773-880 | ../x from a is /x |
| `FullPath.OutAndBack` | src/core/unixfsservices.cpp:773-880 | ../x/.. from a is empty, although a name was met at depth zero |
| `FullPath.TrailingSep` | src/core/unixfsservices.cpp:1179-1199 | whether there is a trailing separator, and the string with or without it |
| `FullPath.RemoveTrailingSeps` | src/core/unixfsservices.cpp:1207-1212 | the string without its trailing separators |
| `FullPath.AddElements` | src/core/unixfsservices.cpp:850-872 | the elements of the name walked on the stack of the base |
| `GrowHeap.AlignmentsAgree` | src/core/growheap.cpp:142-160 | the masking and the dividing formula agree for every size_t |
| `GrowHeap.AlignedEnough` | src/core/growheap.cpp:142-160 | the result is a multiple of 8 and the least that holds the request, if and only if the request is at most 2^64 - 8; beyond that it is zero |
| `GrowHeap.GrowHeap.Malloc` | src/core/growheap.cpp:100-140 | for a request up to 2^64 - 8, null exactly when its aligned size is not below a chunk; a block returned holds the request if and only if the request is at most 2^64 - 8, the ones above getting no bytes or eight; it is cut at the current offset of the last chunk if the chunk has more than its size left, and else at the start of a new chunk, the first of which has the initial size; the recursion ends |
| `GrowHeap.GrowHeap.TotalMemUsage` | src/core/growheap.cpp:84-97 | the closed chunks and the current offset, which is the sizes of all blocks and, chunk by chunk, the bytes of the closed chunks that no block got |
| `GrowHeap.Accounted` | src/core/growheap.cpp:84-97 | what is in use is what the blocks got and what no block got of the closed chunks |
| `GrowHeap.GrowHeap.Clear` | src/core/growheap.cpp:162-169 | no chunks and no blocks |
| `GrowHeap.MallocAll` | src/core/growheap.cpp:100-140 | any requests since the last Clear get 8-aligned, in-bounds, pairwise disjoint blocks, each at least as large as asked if and only if the request is at most 2^64 - 8 |
| `GrowHeap.GrowHeap.constructor` | src/core/growheap.cpp:76-82 | no chunks; the sizes are multiples of 8 |
| `CmdLineSessions.OneSwitch` | src/core/cmdlineparser.cpp:52-247 | a switch that was declared, typed by its name after one dash or its alias after two, with arguments that are not switches: accepted with exactly these if they are as many as declared, and else a parameter error |
| `CmdLineSessions.SwitchTwice` | src/core/cmdlineparser.cpp:52-119 | the same switch twice, under either name: accepted if and only if that was declared |
| `CmdLineSessions.UndeclaredSwitch` | src/core/cmdlineparser.cpp:102-112 | a switch that was not declared is an error |
| `CmdLineSessions.FinalParameters` | src/core/cmdlineparser.cpp:52-231 | the parameters of the program alone: none, one or any number, as declared |
| `CmdLineSessions.MisplacedParameter` | src/core/cmdlineparser.cpp:179-231 | a parameter of the program before a switch: the two errors |
| `CmdLineSessions.ExclusivePair` | src/core/cmdlineparser.cpp:253-341 | two switches declared to exclude each other are rejected exactly when both are typed |
| `CmdLineSessions.DependentPair` | src/core/cmdlineparser.cpp:278-355 | a switch that depends on another is rejected exactly without it, and if the dependency is mutual also the other way round |

## Left out

- HashTable: `Clear`, which leaves the value count, `TraceDiagnostics` and the destructor; the 32-bit width of the value count.
- HashTable.HashTable.Remove: the value count is not claimed to be the size of the map afterwards, because the source does not lower it.
- MemoryArchive: `Truncate` (it shrinks the buffer without recording it), memory mapping, reads and writes outside the contents (a seek there is modelled), the debug-only limit, sizes above 2^30, where the doubled capacity does not fit an int.
- MemoryArchive.MemoryArchive.Read: requires position and count to add up to an int, because the sum in the source overflows beyond that.
- MemoryArchive.MemoryArchive.Seek: sums of ints that overflow wrap around, as on machines with two's complement.
- Cyclic object graphs, which the repository documents as unsupported, and graphs with unregistered types beyond the error they give.
- ObjectGraph: an object body is a list of integers and links, and each class decides from what it has read whether data or a link comes next; versions are written and ignored by reading, as in the base classes; an archive is a sequence of 32-bit words there.
- RefCountObj: the debug sets and counters; `Release` is not called by the serializer.
- WideString.Assign: after the only handle of a buffer is assigned to itself nothing more is said, because the source then counts a deleted buffer.
- TypedArchive.ReadString: a negative length is one failure. The source asserts that there is none; without assertions it goes on, for -1 with a copy past an empty allocation and below that with an allocation of negative size, which have no defined outcome.
- WideString: writes through the pointers of `begin()` and `data()`, `compare` and `CopyString`.
- Euclid.MultiplicativeInverse: right for reduced arguments only; the contract states exactly when.
- The compression functions of MD5, SHA and HAVAL, and the output tailoring of HAVAL: parameters.
- Sha.ShsInfo.Update: requires whole blocks before the last call, as the source asks of its callers.
- Sha.ShsInfo.Final: the last byteReverse, which touches the data buffer and not the digest, is modelled but nothing is said of its result.
- Exponents are natural numbers with bit access; multi-word arithmetic of `integer.cpp` is not part of this model.
- The standard heap functions are modelled with one order among equal exponents; every order that the standard allows gives the same sum.
- Words combined with a bitwise or are added where their bits are disjoint.
- The `iconv`, `mbtowc` and `wctomb` converters and locales of multi-byte characters.
- StringUtil.StringUtil.ToNarrow: the buffer has one byte for each character, the least that MB_CUR_MAX can be; the good-enough converter never writes more.
- DisplayEncoder.HexToChar: what stream extraction makes of two characters that are not both hexadecimal digits is a parameter.
- DisplayEncoder: the schema self-checks in debug builds.
- CmdLineParser: the texts of error messages, `LookupArgInfo`, and the parsed list left behind by a failed parse.
- FullPath.FullPath: the current directory is a parameter without duplicate separators, as `getcwd` returns it; builds with device paths.
- GrowHeap.GrowHeap.Malloc: the model goes on past the assertions of the source, as builds without them do; the base address of a chunk is whatever the allocator gives, so alignment is that of the offset; an allocation that fails is not modelled.
- File archives, stat and directory reading, processes, signals, user notification, string tables, tracing and error printing: I/O or plumbing.
- `upperbound.h`, `asn.cpp`, `fileheader.cpp`, `twlimits.cpp`: binary search, ASN.1 lengths, the file header record and the parsing of decimal numbers; no modelled member depends on them.
