# I2util in Dafny

I2util is a C support library. This project models four of its components and proves that each does
what its simple description says:

- **The hash table** (`Table*.dfy`): pointer chains, a free list cut from slabs, and deletions that
  are put off while an iteration is under way. `Table.dfy` is the heap program; `TableSpec.dfy`,
  `TableIterate.dfy` and `TableRuns.dfy` hold the same operations on values and their laws, and
  `TableDriver.dfy` puts a table through a sequence of them. The table is a finite map from classes of
  keys to values, over every run.
- **The hash stack** (`Octets`, `Blocks`, `Sha1*`, `HmacSha1`, `Pbkdf2`, `Md5*`): streaming contexts with a
  64-octet buffer, split bit counters, unrolled rounds on rotating registers, and a schedule
  overwritten in place, each refining its published standard: FIPS PUB 180-1, RFC 1321, RFC 2104 and
  RFC 2898.
- **The configuration, key and pass-phrase files** (`Lines`, `FileLines`, `LineReader`, `Walk`, `Key*`,
  `Pass*`, `ConfLine`): readers over streams with growing buffers, strict parsers, writers, and the edit
  run of `aespasswd`: for every file whether it succeeds and what it leaves, which is a map update.
- **Two kernels** (`Hex`, `Numbers`): the hex codec, also over shared memory, and the scaling of numbers
  with a suffix, which finds out by dividing back whether a product has wrapped.

Each imperative routine is a method, with arrays, objects and loops as in the source, whose `ensures`
ties it to a function; the laws are lemmas about those functions. Where the code does less than a
description promises, a lemma says exactly when it does what is promised, as an equivalence, and an
example input is given where it is short. Where a function is used by a method and by its specification, a
lemma says octet by octet, or against literal numbers, what it is.

`dafny verify dfyconfig.toml` checks everything.

How things are represented: octets are `bv8` and words `bv32`; counters, lengths and sizes are
integers with their widths written out; a file open for reading is a text and a position, one open for
writing is the text written; a C string is a sequence without a nul, and memory that holds one is
described by `HoldsString`. The number of octets in a `Datum` and the octets themselves stand for the
pointer and size the source stores. `littleEndian` and `direct` select what the preprocessor selects.
Row numbers and the lengths of words are `int` in conf.c and unbounded here; by `KeyText.RowsFit` they fit
where the size of the file and the row it starts from add up to less than 2^31. A key or pass-phrase file is
given by its lines and by whether the last one has its newline; by `FileLines.EveryText` that is every file.

The code and its documentation disagree in three places that matter here. The comments of the parsers say that
leading white space is removed, while the code rejects it in front of content
(`I2util/I2util/I2util/conf.c:315-321`). And the comment in `I2ParsePFFile` says that every line is
completely validated before the caller's interest in it is looked at (`conf.c:620-624`), while the code
passes over a line of another identity without looking at its digits (`conf.c:655-662`). The manual page
allows comments behind white space and nothing but an identity and a key on other lines
(`I2util/I2util/doc/aespasswd.man:60-64`), while the code takes a comment behind the key too
(`conf.c:462-473`), and carries the white space in front of a comment over to the next line, where it makes
a record an error (`conf.c:285-321`). The model follows the code in all of them.

## Model

| member | source | states |
|---|---|---|
| Table.HashTable.constructor | I2util/I2util/I2util/table.c:175-237 | for every hint below 2^32 a new table is valid and empty, with as many buckets as the search through the primes gives |
| Table.BucketCountIs | I2util/I2util/I2util/table.c:185-189 | that is the largest listed prime not above the hint, or the first if there is none |
| Table.BucketCounts | I2util/I2util/I2util/table.c:182-189 | all twelve numbers of buckets and the hints they are for |
| Table.HashTable.Store | I2util/I2util/I2util/table.c:303-344 | the class of the key gets the value, whether a node was found or taken from the free list; without memory nothing changes; the count of entries stays right if and only if the key was present or the count has room for one more |
| Table.HashTable.Fetch | I2util/I2util/I2util/table.c:350-377 | the answer is the map's, at any time, also during an iteration |
| Table.HashTable.Delete | I2util/I2util/I2util/table.c:263-298 | 0 exactly if the class is present; it is unlinked, or during an iteration marked with all chains left alone |
| Table.HashTable.Iterate | I2util/I2util/I2util/table.c:379-426 | for every callback that deletes and fetches: the visits are those of the value-level iteration, no mark and no counted deletion remains |
| Table.HashTable.SweepAll | I2util/I2util/I2util/table.c:410-424 | although it stops when the counter reaches 0, the sweep removes every marked node |
| Table.HashTable.Clean | I2util/I2util/I2util/table.c:428-453 | every node goes back to the free list, and the closing assertion on the length always holds |
| Table.HashTable.NumEntries | I2util/I2util/I2util/table.c:161-173 | the number of distinct key classes present, during an iteration too |
| Table.HashTable.AllocFreelist | I2util/I2util/I2util/table.c:97-129 | one slab more in use and exactly its hint nodes more on the free list, or nothing at all; the slab array is written within its bounds, and the counter reaches the hint |
| Octets.LoopEnds | I2util/I2util/I2util/table.c:123 | a loop that an unsigned counter takes up to a `size_t` comes to an end if and only if that is below 2^32; also hex.c:86 |
| Table.HashTable.AllocBinding | I2util/I2util/I2util/table.c:131-147 | a node leaves the free list, and every other node is still accounted for |
| Table.HashTable.Unlink | I2util/I2util/I2util/table.c:292-294 | assigning through the link takes exactly one node off one chain |
| Table.HashTable.NodeConservation | I2util/I2util/I2util/table.c:121-126 | in every valid state each slab node is on the free list or on one chain, never on both or on two |
| TableSpec.AtomsLawful | I2util/I2util/I2util/table.c:73-95 | the default functions are what a table asks of its functions: an equivalence with equal hashes for equal keys |
| TableAtoms.CmpAtomIs | I2util/I2util/I2util/table.c:73-81 | the default comparison takes two keys for the same if and only if they have the same octets |
| TableAtoms.HashAtomIs | I2util/I2util/I2util/table.c:83-95 | the default hash is the sum of the octets in 32 bits |
| TableAtoms.Hash | I2util/I2util/I2util/table.c:83-95 | its loop, in 64 bits, returns that |
| TableAtoms.AtomStore | I2util/I2util/I2util/table.c:303-344 | with the default functions, storing sets the value of exactly the key with these octets |
| TableAtoms.AtomDelete | I2util/I2util/I2util/table.c:263-298 | and deleting removes exactly that key |
| TableAtoms.AtomStays | I2util/I2util/I2util/table.c:263-377 | over every run, a stored value is found under its key whatever is done with keys of other octets |
| TableSpec.StoreThenLookup | I2util/I2util/I2util/table.c:324-343 | storing sets one class of keys and changes no other answer |
| TableSpec.StorePlaces | I2util/I2util/I2util/table.c:323-343 | in chain hash % size the one node of the class gets the value and keeps its key, or a new node stands at the head; all other chains stay |
| TableSpec.DeleteThenLookup | I2util/I2util/I2util/table.c:275-297 | deleting empties one class of keys and changes no other answer |
| TableSpec.StoreKeepsForm | I2util/I2util/I2util/table.c:331-341 | each chain holds only its own hash and one node for a class; sound because no marked node is there |
| TableSpec.MarkIs | I2util/I2util/I2util/table.c:286-290 | a deferred deletion marks exactly the live node of the class |
| TableSpec.SweepThenLookup | I2util/I2util/I2util/table.c:407-424 | sweeping changes no answer |
| TableIterate.VisitsOnce | I2util/I2util/I2util/table.c:396-404 | no two visits show one class, and none shows a class deleted on an earlier visit |
| TableIterate.VisitsEntries | I2util/I2util/I2util/table.c:396-404 | every visit shows a key and value that the table held |
| TableIterate.VisitsInOrder | I2util/I2util/I2util/table.c:394-405 | whatever the callback deletes, chains are visited in order and their nodes from the head on |
| TableIterate.VisitsAllSurvivors | I2util/I2util/I2util/table.c:396-404 | without an early stop every class that survives has been visited |
| TableIterate.VisitsFollowCallback | I2util/I2util/I2util/table.c:401-402 | the visits and deletions are the callback's, and only its answer ends the loops early |
| TableIterate.IterateThenLookup | I2util/I2util/I2util/table.c:394-425 | afterwards the map is the old map without exactly the classes deleted on the visits |
| TableIterate.DeletedIs | I2util/I2util/I2util/table.c:286-290 | these classes are those of the keys that the callback named on some visit |
| TableRuns.MarkedIsZero | I2util/I2util/I2util/table.c:410-412 | the count of marked nodes is 0 exactly when none is marked |
| TableRuns.KeysCount | I2util/I2util/I2util/table.c:172 | chained nodes less marked nodes is the number of distinct keys present |
| TableRuns.KeysAnswer | I2util/I2util/I2util/table.c:366-376 | a key is answered exactly if one of those keys is of its class, and never two of them |
| TableRuns.RunIsMap | I2util/I2util/I2util/table.c:263-453 | over every sequence of operations the table that they describe answers as a finite map |
| TableRuns.ExpectedNext | I2util/I2util/I2util/table.c:263-453 | that map, operation by operation |
| TableDriver.PerformAll | I2util/I2util/I2util/table.c:175-453 | a new table put through any sequence of operations ends in the table of that run; every fetch and deletion on the way gives what the finite map before it says, and every iteration the visits of the iteration on values |
| TableDriver.IterationShows | I2util/I2util/I2util/table.c:394-405 | these visits show entries of the finite map before the iteration, and no class twice |
| TableDriver.IterationShowsAll | I2util/I2util/I2util/table.c:394-405 | if the callback stopped nothing, they show every entry of the finite map after it |
| Sha1Transform.Transform | I2util/I2util/I2util/sha1.c:100-151 | for every state and block, on either byte order, the compression function of section 7 of FIPS PUB 180-1 |
| Sha1Transform.Blk0 | I2util/I2util/I2util/sha1.c:74-79 | the byte-swapped word is the big-endian load |
| Sha1Transform.RingSlots | I2util/I2util/I2util/sha1.c:80-81 | the four slots a later word is made from hold the schedule words 3, 8, 14 and 16 rounds back |
| Sha1Transform.Blk | I2util/I2util/I2util/sha1.c:80-81 | each word of the sixteen overwritten in place is the word the 80-word schedule has there |
| Sha1Transform.RoundFunctions | I2util/I2util/I2util/sha1.c:86-95 | the rewritten choose and majority formulas are the standard's functions |
| Sha1Example.DigestOfAbc | I2util/I2util/test/sha1test.c:56-64 | the digest of abc, through all 80 rounds of the definition, is the one of FIPS PUB 180-1 (appendix A) |
| OctetLaws.BigEndianSum | I2util/I2util/I2util/sha1.c:280-284 | the four octets of a count as a number, most significant first; also pbkdf2.c:159-162 |
| OctetLaws.BigEndianWordSum | I2util/I2util/I2util/sha1.c:74-79 | the word made of four octets as a number, most significant first |
| OctetLaws.HighOctetSum | I2util/I2util/I2util/sha1.c:302-307 | the four octets of a word of the digest as a number, most significant first |
| Sha1Stream.Sha1Context.Append | I2util/I2util/I2util/sha1.c:214-260 | for every length whose sum with the buffer's use is a `uint32_t`: the state folds the whole blocks so far, the buffer holds the rest, the counter moves as its update rule says |
| Sha1Stream.Sha1Context.Pad | I2util/I2util/I2util/sha1.c:286-300 | the padding loop ends and appends exactly the padding of section 4 of FIPS PUB 180-1 |
| Sha1Digest.PaddingIs | I2util/I2util/I2util/sha1.c:280-300 | that padding, octet by octet: 0x80, as few zeros as bring it to a whole block, and the eight octets that make the count, most significant first |
| Sha1Stream.Sha1Context.Finish | I2util/I2util/I2util/sha1.c:266-313 | the digest of what was absorbed with the recorded count, and a wiped context |
| Sha1Stream.Sha1Once | I2util/I2util/I2util/sha1.c:315-334 | for every length the digest with the recorded count, which is the standard's for fewer than 2^29 octets |
| Sha1Stream.CopyFits | I2util/I2util/I2util/sha1.c:239-258 | the octets kept for the next call fit the buffer if and only if the sum of its use and the length is a `uint32_t` |
| Sha1Stream.CopyOverruns | I2util/I2util/I2util/sha1.c:239-258 | for example, with one octet buffered, 2^32 - 1 more would be copied into it |
| Sha1Stream.CountExact | I2util/I2util/I2util/sha1.c:227-235 | the counter takes a chunk exactly if and only if it has fewer than 2^29 octets or the low word wraps |
| Sha1Stream.CountLosesLongFirstChunk | I2util/I2util/I2util/sha1.c:227-235 | a first chunk of 2^29 octets is not counted at all |
| Sha1Stream.RunExact | I2util/I2util/I2util/sha1.c:227-235 | over a run of chunks the recorded length is right if and only if the lost carries cancel |
| Sha1Stream.ShortChunks | I2util/I2util/I2util/sha1.c:227-235 | chunks of fewer than 2^29 octets never lose a carry |
| Sha1Stream.DigestOfChunks | I2util/I2util/I2util/sha1.c:214-313 | every split into chunks gives the digest of the whole message when no carry is lost |
| HmacSha1.HmacContext.Init | I2util/I2util/I2util/hmac-sha1.c:133-174 | keys of every length become the block key, hashed if longer than a block, and the inner pad is absorbed |
| HmacSha1.HmacContext.Finish | I2util/I2util/I2util/hmac-sha1.c:189-217 | the one SHA-1 context, finished and wiped, also makes the outer hash |
| HmacSha1.HmacOnce | I2util/I2util/I2util/hmac-sha1.c:219-246 | for all lengths the two nested hashes, the function of section 2 of RFC 2104 if key and text are counted exactly; also when text and digest share memory |
| HmacSha1.HmacOfChunks | I2util/I2util/I2util/hmac-sha1.c:133-217 | every split of the text gives the nested hashes over the whole of it, the standard's function when no carry is lost |
| HmacSha1.NestedHashes | I2util/I2util/I2util/hmac-sha1.c:133-217 | these hashes, octet by octet: the key block with 0x36 in front of the text, and with 0x5c in front of that digest |
| HmacSha1.BlockKeyIs | I2util/I2util/I2util/hmac-sha1.c:148-160 | the key block: the key, or its hash if it is longer than 64 octets, and zeros behind it |
| Pbkdf2.F | I2util/I2util/I2util/pbkdf2.c:140-192 | the in-place iteration makes the xor of the pure recurrence, for every function |
| Pbkdf2.BlockIs | I2util/I2util/I2util/pbkdf2.c:165-190 | a block is the sum of as many iterates as the count says, of one for 0, over the function given |
| Pbkdf2.Derive | I2util/I2util/I2util/pbkdf2.c:208-301 | exactly the first dklen octets of the blocks of section 5.2 of RFC 2898 over the function given, and no other octet is written |
| Pbkdf2.StandardKey | I2util/I2util/I2util/pbkdf2.c:165-190 | with the library's own function these are the blocks over HMAC-SHA1 if the password has fewer than 2^29 octets and the first text is counted exactly |
| Pbkdf2.DerivedKeyPrefix | I2util/I2util/I2util/pbkdf2.c:256-284 | a shorter derived key is a prefix of a longer one |
| Pbkdf2.IterationEnds | I2util/I2util/I2util/pbkdf2.c:179 | the loop with its wrapping counter comes to an end if and only if count is not the largest 32-bit number |
| Md5Body.Body | I2util/I2util/I2util/md5.c:92-197 | for any positive number of blocks the 64-step definition of section 3.4 of RFC 1321, for both ways of loading words |
| Md5Body.Set | I2util/I2util/I2util/md5.c:72-86 | the word stored or loaded directly is the same, and later reads find it |
| Md5Stream.CountExact | I2util/I2util/I2util/md5.c:215-218 | the split counter is exact modulo 2^61 for every size, and its low part stays below 2^29 |
| Md5Stream.LengthField | I2util/I2util/I2util/md5.c:263-271 | the eight length octets as a number, low-order first, are the bit count modulo 2^64 |
| OctetLaws.LittleEndianSum | I2util/I2util/I2util/md5.c:263-271 | the four octets of a count as a number, least significant first |
| OctetLaws.LittleEndianWordSum | I2util/I2util/I2util/md5.c:72-86 | the word made of four octets as a number, least significant first |
| Md5Standard.PaddedIs | I2util/I2util/I2util/md5.c:244-271 | the padded message, octet by octet: the message, 0x80, as few zeros as bring it to a whole block, and that number |
| Md5Example.DigestOfAbc | I2util/I2util/I2util/md5.c:92-197 | the digest of abc, through all 64 steps of the definition, is the one of RFC 1321 (section A.5) |
| Md5Stream.Md5Context.Update | I2util/I2util/I2util/md5.c:210-242 | all three paths absorb exactly the data |
| Md5Stream.Md5Context.Final | I2util/I2util/I2util/md5.c:244-293 | the digest of RFC 1321 over what was absorbed, by one last block or by two, and a wiped context |
| Md5Stream.DigestOfChunks | I2util/I2util/I2util/md5.c:210-293 | every split into chunks gives the digest of the whole message |
| Hex.HexEncode | I2util/I2util/I2util/hex.c:40-55 | two characters for each octet, a nul, and nothing else written |
| Hex.HexDecode | I2util/I2util/I2util/hex.c:75-107 | for fewer than 2^32 octets, succeeds exactly on hex digits and writes exactly the octets, also into the memory it reads |
| Hex.EncodedAt | I2util/I2util/I2util/hex.c:50-53 | octet k becomes characters 2k and 2k + 1, the digit of its high half first |
| Hex.Digits | I2util/I2util/I2util/hex.c:47-52 | the sixteen digits |
| Hex.ValueIs | I2util/I2util/I2util/hex.c:89-99 | a character has a value if and only if it is that digit, or the upper-case letter of it |
| Hex.LowerIs | I2util/I2util/I2util/hex.c:90 | the letters from A to Z move by 32, and nothing else does |
| Hex.WriteTrails | I2util/I2util/I2util/hex.c:60-65 | no write touches a character still to be read |
| Hex.DecodeSucceeds | I2util/I2util/I2util/hex.c:89-99 | decoding succeeds exactly when every character in reach is a hex digit of either case |
| Hex.DecodeEncode | I2util/I2util/I2util/hex.c:40-107 | decoding undoes encoding, whatever follows |
| Hex.EncodeDecode | I2util/I2util/I2util/hex.c:40-107 | encoding a decoded text gives it in lower case, cut off or filled up with zeros, for every length |
| Numbers.StrToScaled | I2util/I2util/I2util/conf.c:823-883 | the scan, the suffix, the product and the test give the outcome that is characterised below |
| Numbers.NumSuffix | I2util/I2util/I2util/conf.c:842-883 | digits and one more character, against literal scales: 10^3 to 10^18 for k, m, g, t, p and e in either case if the value is below 2^64; the wrapped multiple for z after 0 to 4; rejected otherwise |
| Numbers.ByteSuffix | I2util/I2util/I2util/conf.c:917-958 | the same with 2^10 to 2^60; z divides by zero, but for the number 0 |
| Numbers.NoSuffix | I2util/I2util/I2util/conf.c:870-883 | digits alone are accepted, and saturate |
| Numbers.TooLong | I2util/I2util/I2util/conf.c:839-841 | anything behind the first character that is no digit is rejected |
| Numbers.DecimalIs | I2util/I2util/I2util/conf.c:870 | what the digits mean |
| Numbers.DivideBack | I2util/I2util/I2util/conf.c:880-882 | dividing back gives the factor exactly when the product did not wrap |
| Numbers.NumExact | I2util/I2util/I2util/conf.c:823-883 | accepted exactly when the scaled value is below 2^64, and then that value; the only exceptions are long plain numbers, which saturate, and 1 to 4 with suffix z |
| Numbers.ByteExact | I2util/I2util/I2util/conf.c:898-958 | the same with factor 1024; there the suffix z divides by zero, exactly for numbers other than 0 |
| Numbers.OneZ | I2util/I2util/I2util/conf.c:848-851 | the input 1z, accepted with a wrong value by one function and trapping in the other |
| Lines.ScanSpace | I2util/I2util/I2util/conf.c:306-313 | the line-wise reading agrees with counting white space character by character |
| LineReader.LineBuf.Reserve | I2util/I2util/I2util/conf.c:323-339 | growing by the increment makes room and keeps the contents |
| LineReader.CopyComment | I2util/I2util/I2util/conf.c:285-303 | a comment is copied up to and including its newline, its white space as blanks |
| LineReader.ParseFileLine | I2util/I2util/I2util/conf.c:252-358 | the next line of content stands in the buffer, blank and comment lines have been copied, and the row number is returned |
| KeyFile.ParseLine | I2util/I2util/I2util/conf.c:420-484 | the checks made while walking over the buffer accept exactly the records |
| KeyFile.ParseKeyFile | I2util/I2util/I2util/conf.c:384-513 | stops where the scan of the text stops, has copied what it passed over, and fills the caller's buffers |
| KeyFile.WriteKeyLine | I2util/I2util/I2util/conf.c:528-554 | refuses an identity that is missing, empty or too long, and writes the line otherwise |
| KeyFile.EditRun | I2util/I2util/aespasswd/aespasswd.c:266-306 | parse, write and parse the rest write the text that the edit describes, in front of what the lock file held behind its length; that is the edited file if and only if the lock file was not longer |
| KeySyntax.RecordSyntax | I2util/I2util/I2util/conf.c:420-484 | a line is a record if and only if its text up to the first nul is an identity, white space, a key, and nothing but white space and a comment behind it |
| KeySyntax.KeyPartsAre | I2util/I2util/I2util/conf.c:420-484 | these parts, character by character: at most 16 characters without white space; white space; 32 hex digits; white space; `#` behind white space and anything |
| KeySyntax.MatchesIs | I2util/I2util/I2util/conf.c:490 | an identity matches the query if and only if they agree in the first 16 characters, the nul at the end included |
| KeySyntax.Characters | I2util/I2util/I2util/conf.c:272-313 | the characters with a meaning, and the six that are white space |
| KeyText.LineReadsBack | I2util/I2util/I2util/conf.c:528-554 | a written line parses back to its identity and key |
| KeyText.WrittenLineReads | I2util/I2util/I2util/conf.c:539-549 | of the identities the writer accepts, a file of the one line written gives it back if and only if the identity has no white space and does not start a comment |
| KeyText.RowsFit | I2util/I2util/I2util/conf.c:384-513 | what is returned is at most the row to start from and the number of characters, either way |
| FileLines.EveryText | I2util/I2util/I2util/conf.c:252-358 | every text is that of its lines, of which the last may lack its newline |
| FileLines.OtherLine | I2util/I2util/I2util/conf.c:272-313 | a blank line is copied as a newline; a comment with its white space as blanks, counted on top of what was carried to it, and carried on |
| FileLines.OtherLineIs | I2util/I2util/I2util/conf.c:272-321 | the same character by character: white space, and then a comment, which is written with as many blanks, or content |
| FileLines.BlankLineIs | I2util/I2util/I2util/conf.c:272-281 | and a line of white space, which is written empty and carries nothing on |
| KeyLines.ContentIsRecord | I2util/I2util/I2util/conf.c:315-484 | a line of content is valid if and only if it is a record from the first column on with nothing carried to it |
| KeyLines.PassOver | I2util/I2util/I2util/conf.c:384-513 | on every file: valid lines without the identity asked for are written, and the parse goes on behind them with the white space carried so far |
| KeyLines.EndsIff | I2util/I2util/I2util/conf.c:384-513 | on every file: the parse reaches the end if and only if no line is malformed or has white space carried to it and none is asked for, but for an indented first line |
| KeyEdit.EditEvery | I2util/I2util/aespasswd/aespasswd.c:266-306 | on every file, but for an indented first line: a run succeeds if and only if all lines are valid where they stand and the identity occurs once at most and is there to be deleted or fit to be stored; then its line is replaced in place, appended or removed, and every other line is as it is written |
| KeyEdit.EditLines | I2util/I2util/aespasswd/aespasswd.c:266-306 | if the file ends with a newline or a record, the same as lines that all have their newline |
| KeyPlain.EditInPlace | I2util/I2util/aespasswd/aespasswd.c:266-306 | on every file of empty lines, comments and records from the first column on: the record of the identity is replaced where it stands or removed, and all text in front of it and behind it stays; with two of them the run fails |
| KeyPlain.EditAppends | I2util/I2util/aespasswd/aespasswd.c:266-306 | the record of another identity is appended to the text as it is, and cannot be deleted |
| KeyPlain.PlainLinesAre | I2util/I2util/doc/aespasswd.man:53-64 | the lines of these files, character by character |
| KeyMap.ReadLines | I2util/I2util/I2util/conf.c:384-513 | reading a file without a query gives its records in order if and only if every line is valid where it stands, and fails otherwise |
| KeyMap.RecordOfIs | I2util/I2util/I2util/conf.c:420-484 | a line has a record if and only if it is content that parses as one |
| KeyMap.WrittenRecords | I2util/I2util/I2util/conf.c:285-303 | lines as they are written have the records of the lines, and are valid again |
| KeyMap.EditUpdatesMap | I2util/I2util/aespasswd/aespasswd.c:266-306 | on every file of valid lines without repetition that ends with a newline or a record: the edited records are old[id := key] or old - {id}, without repetition; and reading the edited file gives them, except if the record was appended with the white space of a comment carried to it, when reading fails |
| KeyLimits.StoredIff | I2util/I2util/aespasswd/aespasswd.c:284-306 | on every file of valid lines without repetition, whatever its last line: a run with an identity that the writer accepts succeeds, and what it stores is read back if and only if the identity is readable and was there or has room at the end |
| KeyLimits.LastRecordLine | I2util/I2util/I2util/conf.c:341-357 | a record on an unterminated last line is treated as one with its newline, by every run on every file |
| KeyLimits.LastOtherLine | I2util/I2util/I2util/conf.c:294-303 | an unterminated comment is kept at the end by every run, but an appended record is written behind it, on its line |
| KeyLimits.StoredOpen | I2util/I2util/I2util/conf.c:294-303 | so there the record is read back if and only if it replaces another one, or the line is white space only and nothing is carried to it |
| KeyFirst.ErrorShows | I2util/I2util/I2util/conf.c:315-321 | an indented record reads as the end of the file if and only if it is on the first line |
| KeyFirst.IndentedFirstLine | I2util/I2util/aespasswd/aespasswd.c:266-306 | for every file with such a first line: a run cannot delete; it stores, and loses everything, if what is left of the line is indented content again; otherwise it stores if and only if the rest is valid and does not have the identity, and only the first character of content is lost |
| KeyFirst.RecordRenamed | I2util/I2util/aespasswd/aespasswd.c:266-306 | so a record behind a blank keeps its key under an identity without its first character |
| KeyErrors.BadLineReported | I2util/I2util/I2util/conf.c:315-484 | the row returned for the first malformed line is its own, or the row before it if it has white space in front or carried to it; all lines in front have been written |
| KeyErrors.BehindIndentedComment | I2util/I2util/I2util/conf.c:285-321 | a record directly behind an indented comment is an error, reported by the row of the comment |
| KeyErrors.BlankComment | I2util/I2util/I2util/conf.c:285-321 | for example behind ` #`, whatever the record is |
| KeyErrors.EditRefuses | I2util/I2util/aespasswd/aespasswd.c:266-306 | a run fails on every file with a line that is malformed or has white space carried to it, wherever it and the identity are and also if it is an unterminated last line, unless the first line is indented |
| KeyCopy.CopiesVerbatim | I2util/I2util/I2util/conf.c:272-303 | on every file, but for an indented first line: the parse reaches the end if and only if all lines are valid where they stand and none is asked for, and then has copied the file unchanged if and only if blank lines are empty, comments stand behind blanks with no indented comment before them, records have no nul and the last one its newline |
| PassFile.ParsePFFile | I2util/I2util/I2util/conf.c:583-744 | stops where the scan of the text stops; the identity stands at the front of the buffer and the octets behind it |
| PassFile.CutIdentity | I2util/I2util/I2util/conf.c:641-669 | the nul that ends the identity leaves the digits behind it intact |
| PassFile.CutDigits | I2util/I2util/I2util/conf.c:672-690 | trailing white space is cut off, and the shape of the digits is decided exactly |
| PassFile.DecodeBehind | I2util/I2util/I2util/conf.c:692-728 | decoding behind the text, moved buffer or not, leaves the identity what it was |
| PassFile.WritePFLine | I2util/I2util/I2util/conf.c:759-808 | refuses a missing or empty identity, and writes the line otherwise, by way of a buffer grown for it |
| PassText.WrittenPassReads | I2util/I2util/I2util/conf.c:759-808 | a written line gives the same identity and octets back if and only if the identity is readable and there is an octet |
| PassText.ScanPassLines | I2util/I2util/I2util/conf.c:651-662 | on every file of valid lines, a lookup takes the first record whose identity begins the query or is begun by it, and writes the lines before it |
| PassLines.LookupStops | I2util/I2util/I2util/conf.c:631-736 | on every file, a lookup stops at the first line it does not pass over: with the record and its row, or with the negated row of the malformed line, or of the line before if there is white space in front or carried to it; all lines in front have been written |
| PassLines.LookupEnds | I2util/I2util/I2util/conf.c:631-662 | where every line is passed over, all are written and the end of the file is returned |
| PassLines.EveryFile | I2util/I2util/I2util/conf.c:631-736 | these two cases are all files |
| PassSyntax.LookupExact | I2util/I2util/I2util/conf.c:655-656 | it returns the identity asked for if and only if every earlier identity differs from it in a character that both have |
| PassSyntax.LookupPrefixFree | I2util/I2util/I2util/conf.c:655-656 | where all other identities do, a lookup is a map lookup |
| PassSyntax.LookupFirst | I2util/I2util/I2util/conf.c:655-662 | a query that begins an identity, or is begun by it, returns the first such record; the lines in front are written and those behind are left to read |
| PassSyntax.AgreeIs | I2util/I2util/I2util/conf.c:655-656 | an identity agrees with the query if and only if no character that both have is different |
| PassSyntax.JudgeIs | I2util/I2util/I2util/conf.c:641-690 | a line without white space is an error; one of another identity is passed over whatever its digits are; every other is what it is without a query |
| PassSyntax.PassSyntax | I2util/I2util/I2util/conf.c:641-728 | a line is taken if and only if its text up to the first nul is an identity, white space, digits, and white space |
| PassSyntax.PassPartsAre | I2util/I2util/I2util/conf.c:641-728 | these parts, character by character |
| PassSyntax.RecordOfLine | I2util/I2util/I2util/conf.c:651-662 | which lines have a record, and which of them a query takes |
| ConfLine.GetConfLine | I2util/I2util/I2util/conf.c:60-154 | the line that the recursive description gives stands in the buffer, which always had room for it |
| ConfLine.LeadRows | I2util/I2util/I2util/conf.c:72-154 | the row number rises by exactly the newlines read, and by one more when the line ends with the file |
| ConfLine.BadShows | I2util/I2util/I2util/conf.c:106-113 | from the first row on, 0 is returned exactly at the end of the file or for a backslash on the first line that continues nothing, in content |
| ConfLine.StrayHidden | I2util/I2util/I2util/conf.c:106-113 | the line `a\b` as an example of that |
| ConfLine.ReadsContinued | I2util/I2util/I2util/conf.c:72-154 | behind any blank and comment lines and white space, a line continued over any number of rows comes back joined, also if it ends with the file |
| ConfLine.Pieces | I2util/I2util/I2util/conf.c:93-125 | the words of that statement, character by character |
| ConfLine.SkippedLines | I2util/I2util/I2util/conf.c:72-91 | which lines are skipped: white space, and `#` behind white space |
| ConfLine.StrayStops | I2util/I2util/I2util/conf.c:106-113 | in such a line, a backslash that no newline follows is an error reported by the row in front of it |
| ConfLine.NothingElse | I2util/I2util/I2util/conf.c:72-111 | blank and comment lines alone are the end of the file |

## Left out

- Table.HashTable.Iterate: the callback is a function of the visits so far that deletes keys and asks for more or not; what it fetches is determined by the table and the visits. A callback that stores or iterates fails an assertion of the source.
- Table.HashTable.constructor: memory for the table itself is taken to be there; allocation may fail in `Store` only. The hint is below 2^32: beyond that, by `Octets.LoopEnds`, the loop over the first slab does not end.
- Hex.HexDecode: fewer than 2^32 octets, for the same reason.
- TableDriver.PerformAll: requires that a new key is stored only while fewer than 2^32 - 1 entries are there. Beyond that the count is wrong, by the contract of `Table.HashTable.Store`, because the guard of the source compares the number of buckets (table.c:317-322). Memory is there throughout.
- Table.HashTable.Clean: `I2HashClose`, which only frees memory, is not modelled.
- Sha1Stream.Sha1Context.Append: a length whose sum with the buffer's use leaves `uint32_t` is not modelled; there, by `Sha1Stream.CopyFits`, the copy would not fit the buffer. The digests of whole runs, `Sha1Stream.DigestOfChunks` and `HmacSha1.HmacOfChunks`, ask the same of every chunk.
- HmacSha1.HmacOnce: requires a text that is not empty, as the source asserts (hmac-sha1.c:184).
- Pbkdf2.F: a count of 0 is taken for 1, as the code does; the standard asks for a positive count.
- Pbkdf2.Derive: requires what `Accepts` says: lengths and sums that fit `uint32_t` and a count for which the loop ends. Allocation succeeds. Any function but the library's own is taken to read its whole text before it writes its output over it, as the code passes one buffer for both.
- Md5Stream.Md5Context.Update: `unsigned long` is 64 bits wide.
- Numbers.StrToScaled: one method for both functions, with the base as a parameter; the nul written over the suffix is not modelled.
- LineReader.ParseFileLine: the loop of the source is written as two, for the passes before the first character of content and for those after it.
- KeyFile.EditRun: the key is a parameter. Options, taking the lock, the prompt for the pass-phrase, closing and renaming are not modelled.
- KeyMap.EditUpdatesMap: excludes an unterminated last line that is no record, which is settled by `KeyLimits.LastOtherLine` and `KeyLimits.StoredIff`, and lines that are not valid, on which by `KeyErrors.EditRefuses` every run fails, but for an indented first line (`KeyFirst.IndentedFirstLine`).
- KeyCopy.CopiesVerbatim: excludes indented content on the first line, as `KeyEdit.EditEvery` does; that is the subject of `KeyFirst.IndentedFirstLine`.
- KeyFile.WriteKeyLine: output does not fail; the same holds for `PassFile.WritePFLine`.
- PassFile.ParsePFFile: a file has fewer than 2^33 octets, so that the digits of a line make fewer than 2^32; the three pointers it can hand out are results; the sequence in `pfstore.c` around it is not modelled, as it takes over the match by the shorter length.
- Character classes are those of the C locale; `realloc` succeeds; error messages are no part of the model.
- `I2ReadConfVar`: the splitting of a line of `I2GetConfLine` into a variable and its value by `strtok`.
- `ErrLog*.c`, `mach_dep.c`, `Pthread.*`, `io.c`, `random.c`, `readpassphrase.c`: logging, threads, system calls and the terminal.
- `addr.c`, `saddr.c`: calls into the resolver and the socket layer.
- Resistance of the digests to attack, and test vectors but for those of `Sha1Example` and `Md5Example`.
