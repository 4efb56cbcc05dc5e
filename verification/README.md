# Verified models of the extension cores

This project models the parts of the PHP extensions that compute something on their own, in Dafny, and proves what
they keep and what they lose. Six sources are covered.

* **The compound-file reader** (`php-xls2array/ole.c`; the format is MS-CFB, sections 2.3 to 2.5). `SectorChain`
  is the chain validator. `OleImage` says what the bytes of a chain are, `OleFiles` is the in-memory file, `OleStreams`
  the buffered, seekable stream, `OleFat` the FAT assembled from header and DIFAT, and `OleLoader` the header, the mini
  FAT, the directory and the mini stream. `Iteration` holds the argument about runs that never end.
* **The password database** (`php-spwd/spwd.c`). `AccountRecord` is the stored form of an account and `RecordBuffer`
  writes and reads it through a moving pointer. `ThreeIndexes` says when the name, uid and number indexes are in step,
  `Accounts` lifts that to lists of accounts. `Sessions` is the state machine of accounts and login hashes, and
  `PasswordDb` the operations on the stored maps, proved against it. `LoginClass` and `ClassStore` edit login classes.
* **Control messages** (`php-sockets/conversions.c`). `ControlMessages` has the sizes, the encoding and the walk over
  headers; `ControlBuffers` the growing buffer and the loops.
* **TLS helpers** (`php-openssl/xp_ssl.c`): `RenegBucket`, `Alpn` and `HostMatch`.
* **The OpenSSL error ring** (`php-openssl/openssl.c`): `ErrorRing`.
* **Interface aliases** (`php-net/net.c`, the ZFS branch): `AliasStore`, with `Decimal` for printed numbers and
  `Splitting` for comma lists.

`Bytes` has the machine integers and `Lists` a few list functions. Objects whose fields the C code updates are
classes; their methods carry contracts in terms of specification functions, and the lemmas are about those functions.
`PasswordDb.Spwd.Calls`, `Sessions.LiveIffGranted` and `ErrorRing.RunSound` are about all runs of operations.

## Where the code does less than one might expect

These are results: each has a lemma or a contract that says exactly when the code does what it is for.

* Seeking to the block right behind the end of a chain reports success and keeps the old buffer.
  `OleStreams.OleStream.Seek` says so of every stream, and that it fails further out. The next read succeeds and hands
  out bytes of the block where the stream stood before (`OleStreams.OleStream.ReadBehindEnd`).
* A declared size bounds a stream up to that size only: behind it, the difference wraps around in size_t arithmetic
  (`OleStreams.ClampExactly`). A read ends inside the declared size exactly when it began there
  (`OleStreams.OleStream.Read`); `OleStreams.WrapExample` has an offset behind it.
* A sector position wraps around in 32 bits exactly from sector 0x7F_FFFF on (`OleImage.PositionExactly`). No sector of
  a chain in a table that loads is one of these (`OleImage.ChainPositions`).
* Reading the DIFAT goes on for ever exactly when it comes back to a sector without having found the name of a FAT
  sector since (`OleFat.DifatHalting`; `OleFat.DifatLoopExample` gives such a file).
* Adding an account looks at visible accounts only. The indexes stay in step exactly when no hidden account has the
  name (`PasswordDb.Spwd.AddEntry`, `PasswordDb.HiddenNameExample`).
* `php-spwd/README.md` offers a new name in spwd_set_entry. The code refuses every new name but the empty one, which
  it does not check; then the indexes stay in step exactly when no other account has the empty name
  (`PasswordDb.Spwd.SetEntry`, `PasswordDb.EmptyNameExample`). The same document omits the wanted uid of
  spwd_add_entry and gives 0 as the default of the expiry time; in the code it is -1.
* spwd_get_all leaves out uid 65533, which spwd_get_entry shows.
* A class entry that is set updates the table of the class, and no more, exactly when its key holds no equals sign
  (`LoginClass.SetIsUpdate`); printing and parsing entries is exact exactly for entries without tabs
  (`LoginClass.ParsePrint`).
* The ancillary registry compares seven of eight key bytes, so types that differ in the top byte are the same to it
  (`ControlMessages.TopByteIgnored`).
* A credentials message with a negative process id can be read but not written (`ControlMessages.ReadIsWritable`;
  `ControlMessages.NegativePidExample` gives its 32 bytes).
* The bucket drains nothing exactly when the limit is below the window (`RenegBucket.Rate`), as with the built-in
  limit of 2 in 300 seconds (`RenegBucket.NeverDrains`).
* A negative window is taken, and a bucket with a negative rate is filled by the time that goes by
  (`RenegBucket.NegativeRateFills`).
* When the parts of a wildcard name overlap in the subject, the search runs past the end of the subject, exactly when
  the subject holds no dot to stop at (`HostMatch.WildcardMatch`, `HostMatch.OverrunExample`). A host name with a dot
  never gets there (`HostMatch.DottedNeverOverruns`).
* The printed alias list is cut off beyond 1110 aliases, and adding an alias prints one digit of its number only
  (`AliasStore.PrintedExactly`, `AliasStore.NewListExactly`). Alias numbers are not checked: deleting one behind the
  next free one lists numbers that no alias has (`AliasStore.PrintedListsExactly`, `AliasStore.Store.Ip4Del`), and
  adding one there leaves a gap (`AliasStore.Store.AddNewIp4`).

## Model

| member | source | states |
|---|---|---|
| SectorChain.ValidateSectorChain | php-xls2array/ole.c:76-89 | accepts a start sector if and only if following the table from it reaches the end mark through sectors inside the table in n steps with n = 0 or n below the table length; the sectors it visited are then pairwise distinct |
| SectorChain.ChainIsUnique | php-xls2array/ole.c:76-89 | a start sector has at most one chain that ends |
| SectorChain.ChainIsDistinct | php-xls2array/ole.c:76-89 | a chain that ends visits no sector twice |
| SectorChain.EndingChainAccepted | php-xls2array/ole.c:76-89 | every chain that ends is accepted, unless it uses each sector of the table |
| OleFiles.OleFile.SectorRead | php-xls2array/ole.c:634-652 | returns the 512 bytes at the sector's position, or fails when they are not inside the file or the caller's room |
| OleFiles.OleFile.Fread | php-xls2array/ole.c:369-383 | returns the bytes at the file position and moves it behind them, or fails when there are too few |
| OleImage.ReadableInsideFile | php-xls2array/ole.c:108-156 | a regular stream can be read to its end if and only if all sectors of its chain lie inside the file |
| OleImage.PositionExactly | php-xls2array/ole.c:629-632 | the 32-bit position of a sector is its true place if and only if its number is below 0x7F_FFFF |
| OleImage.ChainPositions | php-xls2array/ole.c:629-652 | no sector of a chain wraps around: the tables that load are too small for that |
| OleImage.RunByte | php-xls2array/ole.c:108-156 | byte k of a stream is byte k modulo the block size of the block k divided by it |
| OleImage.FatSectorsByte | php-xls2array/ole.c:513-545 | byte x of a table read through the FAT is the file byte found in the sector that is x / 512 links along the chain |
| OleImage.ShortStreamByte | php-xls2array/ole.c:108-156 | byte j from any block of a short stream on is the file byte found by mapping j through the mini-FAT chain and the result through the FAT chain of the root entry |
| OleStreams.OleStream.ShortByte | php-xls2array/ole.c:108-332 | what is left to read of a short stream is, byte by byte, the file bytes reached from its offset on through both chains, also after a seek |
| OleStreams.OleStream.Open | php-xls2array/ole.c:225-277 | opens if and only if the chain is accepted and its first sector can be had; the stream then stands at offset 0 of it |
| OleStreams.OleStream.BufRead | php-xls2array/ole.c:108-156 | loads the sector under the stream's table position and follows the table by one link, or fails exactly when sector or link is out of reach |
| OleStreams.OleStream.LoadBlock | php-xls2array/ole.c:108-156 | along an accepted chain the k-th load succeeds if and only if the k-th block can be had, and leaves it in the buffer |
| OleStreams.OleStream.ReadBlock | php-xls2array/ole.c:181-202 | one round of the read loop hands out a non-empty prefix of what is left in the chain and advances the offset by its length, across block boundaries |
| OleStreams.OleStream.ReadBlocks | php-xls2array/ole.c:180-202 | the read loop ends, and hands out the requested bytes or all that is left in the chain |
| OleStreams.OleStream.Read | php-xls2array/ole.c:159-222 | a read in the chain or right behind it fails exactly when it needs a sector that cannot be had; otherwise it returns the least of requested bytes, bytes left and, for a sized regular stream, what size_t arithmetic leaves of the size, these bytes in order, and advances the offset by their number; bytes left are those of the chain, or behind it those of the buffer; a sized regular stream is inside its declared size afterwards if and only if it was before |
| OleStreams.ClampExactly | php-xls2array/ole.c:169-178 | what a declared size leaves is its difference to the offset if and only if the offset is not behind it; behind it nearly all of a size_t is left |
| OleStreams.ReadsCompose | php-xls2array/ole.c:159-222 | of every sane view, which is that of every stream between calls (PositionedIsSane), reading a and then b bytes fails, takes and leaves the same as reading a + b bytes, but for an end-of-file flag that may be set earlier |
| OleStreams.OleStream.PositionedIsSane | php-xls2array/ole.c:159-222 | a stream that was opened on a chain, read or sought with success has nothing left to read only at its end |
| OleStreams.OleStream.ReadTwice | php-xls2array/ole.c:159-222 | two reads of a stream fail if and only if one read of both lengths would; otherwise their bytes, one after the other, and the offset they leave are those of the one read |
| OleStreams.ExhaustedReadsNothing | php-xls2array/ole.c:169-178 | that earlier flag makes no difference: every later read returns nothing |
| OleStreams.OleStream.OffsetIsPlace | php-xls2array/ole.c:159-222 | what is left to read is the concatenation of the chain's blocks from the offset on |
| OleStreams.OleStream.OffsetDeterminesState | php-xls2array/ole.c:159-332 | two streams on one chain at one offset before the end agree in table position, place, block number and buffer, however they got there |
| OleStreams.OleStream.Seek | php-xls2array/ole.c:280-332 | from any earlier state, seeking below the end of the chain arrives in the state of sequential reading at that offset, with the slice from there left to read; it also says what happens behind the end |
| OleStreams.OleStream.ReadBehindEnd | php-xls2array/ole.c:159-332 | after a seek right behind the end a read succeeds with the least of the requested bytes, the rest of a block, and what the size leaves there; its bytes are those of the block where the stream stood before the seek |
| OleStreams.OleStream.SeekLikeReading | php-xls2array/ole.c:159-332 | reading ofs bytes from the start of a stream whose size is no bound, and seeking to ofs from anywhere, leave every field the same: table position, place, block number, buffer and end-of-file flag |
| OleFat.DifatHalting | php-xls2array/ole.c:675-733 | reading the DIFAT stops if and only if it never returns to a sector with as much room left in the table |
| OleFat.AcyclicStops | php-xls2array/ole.c:675-733 | reading the DIFAT stops on every chain that does not come back to a sector |
| OleFat.DifatLoopExample | php-xls2array/ole.c:675-733 | a file of 1024 bytes on which reading the DIFAT never stops, whatever room there is |
| OleFat.ReadMsatHeader | php-xls2array/ole.c:655-672 | fills the table with the FAT sectors of the first min(cfat, 109) header entries in order and leaves the rest of it alone, or fails exactly when one cannot be read or does not fit |
| OleFat.ReadDifatSector | php-xls2array/ole.c:675-733 | adds the FAT sectors that one DIFAT sector names, skipping end marks and free entries, and never writes behind the table |
| OleFat.ReadMsatBody | php-xls2array/ole.c:675-733 | succeeds if and only if the DIFAT chain ends with all named sectors readable and counted; the table is then the header's sectors followed by the DIFAT's |
| OleFat.ScanFits | php-xls2array/ole.c:675-733 | the running index never passes the count or the table |
| OleLoader.ReadAlongFat | php-xls2array/ole.c:526-545 | fills a buffer with n sectors along the FAT, or fails exactly when one of them is an end mark, outside the file or linked to itself |
| OleLoader.ReadMsatTrailer | php-xls2array/ole.c:736-777 | the mini FAT is the entries of the sectors along its chain, or loading fails |
| OleLoader.ReadMiniStream | php-xls2array/ole.c:513-545 | the mini stream is the first ceil(size / 512) sectors of the root chain |
| OleLoader.FatListFits | php-xls2array/ole.c:781-830 | a file that loads lists no more FAT sectors than its header counts and than the table of at most 2^24 bytes holds |
| OleLoader.ReadMsat | php-xls2array/ole.c:781-830 | the FAT is the listed sectors in order; success if and only if the list exists and the mini FAT loads |
| OleLoader.ListingIs | php-xls2array/ole.c:455-558 | after the directory, the file list is that of the root and stream entries in order, and the mini stream is that of the last root entry with a chain |
| OleLoader.ReadEntries | php-xls2array/ole.c:455-558 | reads every entry of the directory chain through the buffered stream and stops at its end |
| OleLoader.ReadBody | php-xls2array/ole.c:455-558 | succeeds if and only if the directory chain is accepted and readable and no entry makes it fail |
| OleLoader.ReadHeader | php-xls2array/ole.c:386-453 | succeeds if and only if the header is one of the format, its FAT sectors can all be listed and read, and the mini FAT loads; the tables are then those sectors and the cutoff is the header's |
| OleLoader.OpenBuffer | php-xls2array/ole.c:560-582 | opens if and only if the header is one of the format, the FAT sectors can all be listed and read, the mini FAT loads, and the directory chain is accepted, readable and without a failing entry; then FAT, mini FAT, cutoff, file list and mini stream are what the bytes of the file say, and streams can be opened |
| OleLoader.FullFatIsDetermined | php-xls2array/ole.c:781-830 | when the listed sectors cover the table, the FAT is determined by the file |
| OleLoader.OpeningIsDetermined | php-xls2array/ole.c:560-582 | so is then whether the file opens, with the chain of its directory |
| OleLoader.MiniStreamOfFile | php-xls2array/ole.c:513-545 | the mini stream of an open file is the sectors along the FAT chain of its last root entry with a chain |
| OleLoader.ShortStreamOfFile | php-xls2array/ole.c:108-545 | byte k of what is left to read of a short stream of an open file is the file byte found through its mini-FAT chain and the chain of the root entry, both taken from the bytes of the file |
| OleLoader.ReadShortStream | php-xls2array/ole.c:159-222 | every byte that a read from a short stream of an open file hands out is the file byte found through both chains |
| AccountRecord.RecordRoundTrip | php-spwd/spwd.c:737-839 | reading the stored form of an account gives the account back |
| RecordBuffer.WriteString | php-spwd/spwd.c:31-31 | puts a string and its NUL behind what the buffer holds |
| RecordBuffer.WriteRecord | php-spwd/spwd.c:964-975 | the buffer built field by field is the stored form of the account |
| RecordBuffer.ReadString | php-spwd/spwd.c:29-29 | takes the string up to the next NUL, or notices that there is none |
| RecordBuffer.ReadRecord | php-spwd/spwd.c:792-823 | reads field by field what the record shows, and nothing behind an invisible uid |
| RecordBuffer.PeekBack | php-spwd/spwd.c:792-823 | what was written shows exactly the account if its uid is visible, and nothing otherwise |
| Sessions.MadeKeeps | php-spwd/spwd.c:964-975 | a stored account keeps group, change and expiry exactly as far as they fit 32 bits |
| ThreeIndexes.AddInStep | php-spwd/spwd.c:927-1006 | a record under a new name and uid and the next number keeps the three indexes in step |
| ThreeIndexes.SetInStep | php-spwd/spwd.c:483-507 | so does a record rewritten under its uid and number and a name no other has |
| ThreeIndexes.DeleteInStep | php-spwd/spwd.c:1008-1076 | so does a record taken out of all three, with the numbers closed up |
| ThreeIndexes.BehindTheGap | php-spwd/spwd.c:1054-1067 | while a deletion is under way the next number is in use if and only if there is a record left to move, and it holds that record |
| ThreeIndexes.ClosingGoesOn | php-spwd/spwd.c:1054-1067 | one move of the shifting loop keeps the earlier and the later numbers right |
| ThreeIndexes.EntryCount | php-spwd/spwd.c:1460-1471 | a third of all entries, rounded down, is the number of accounts |
| ThreeIndexes.RecordsAreUnique | php-spwd/spwd.c:927-1006 | the numbered records are determined by the maps |
| Accounts.AccountsAreUnique | php-spwd/spwd.c:927-1006 | at most one list of accounts agrees with a database |
| Accounts.AddAgrees | php-spwd/spwd.c:927-1006 | writing an account with a new name and a free uid under number n + 1 appends it to the list that agrees |
| Accounts.AddDisagrees | php-spwd/spwd.c:927-1006 | writing one whose name is taken leaves a database with which no list agrees |
| Accounts.SetAgrees | php-spwd/spwd.c:483-507 | rewriting an account replaces it in the list, when no other account has the name it is given |
| Accounts.SetDisagrees | php-spwd/spwd.c:483-507 | rewriting it under the name of another leaves a database with which no list agrees |
| Accounts.DeleteAgrees | php-spwd/spwd.c:1008-1076 | deleting an account removes it from the list, the later ones in order one number down |
| PasswordDb.StoredIsSought | php-spwd/spwd.c:761-790 | each kind of key leads to the record of the account it names, and to none if there is no such account |
| PasswordDb.FoundUnderEachKey | php-spwd/spwd.c:737-839 | a visible account is found with all its fields under its number, its uid and its name |
| PasswordDb.Spwd.Get | php-spwd/spwd.c:737-839 | the answer for any key: none, one that is not shown, or the account |
| PasswordDb.Spwd.UserCount | php-spwd/spwd.c:1460-1471 | counting with a cursor gives the number of accounts |
| PasswordDb.Spwd.FirstFree | php-spwd/spwd.c:908-921 | the search ends at the least free uid from the start |
| Sessions.NewUid | php-spwd/spwd.c:891-922 | the uid of a new account is free; it is the wanted one if that is free and not below the start, otherwise all uids between the start and it are in use |
| PasswordDb.Spwd.CheckName | php-spwd/spwd.c:851-925 | adding is refused if and only if a visible account has the name, and otherwise gets number n + 1 and the uid of NewUid; when updating, the visible account with the name is found with its uid and number |
| PasswordDb.Spwd.Write | php-spwd/spwd.c:927-1006 | the three maps hold the stored form under name, uid and number, and are otherwise unchanged |
| PasswordDb.Spwd.CloseGap | php-spwd/spwd.c:1046-1075 | the shifting loop ends, and leaves numbers 1 to n - 1 with the remaining records in order |
| PasswordDb.Spwd.Del | php-spwd/spwd.c:1008-1076 | with all three keys exactly that account goes, from all three maps; with the name only, nothing else changes |
| PasswordDb.Spwd.AddEntry | php-spwd/spwd.c:293-361 | adds exactly when the state machine does; the indexes stay in step if and only if no account, hidden or not, has the name |
| PasswordDb.HiddenNameExample | php-spwd/spwd.c:851-925 | a database, a session and a request that gives a new account the name of a hidden one |
| PasswordDb.Spwd.SetEntry | php-spwd/spwd.c:428-541 | updates exactly when the state machine does; the indexes stay in step if and only if no other account has the name that is written |
| PasswordDb.EmptyNameExample | php-spwd/spwd.c:474-507 | a database, a session and a request that gives two accounts the empty name |
| Sessions.PatchNothing | php-spwd/spwd.c:494-502 | an update without changes writes the account that was there |
| Sessions.PatchAll | php-spwd/spwd.c:494-502 | an update that gives every field asks for exactly these fields, if and only if no number among them is a -1, which stands for no change, where the account has another one |
| PasswordDb.Spwd.DelEntry | php-spwd/spwd.c:543-618 | deletes the account and its sessions exactly when the state machine does |
| Sessions.LoginExactly | php-spwd/spwd.c:645-670 | a name and a password log in as a uid if and only if a visible account has all three |
| PasswordDb.Spwd.Verify | php-spwd/spwd.c:620-699 | hands out the token if and only if a visible account has this name and password; its older sessions end |
| PasswordDb.Spwd.ClearHash | php-spwd/spwd.c:1127-1147 | removes all hashes of a uid and no others |
| PasswordDb.Spwd.GetEntry | php-spwd/spwd.c:210-238 | shows an account without its password to whoever holds a live hash |
| PasswordDb.Spwd.GetByHash | php-spwd/spwd.c:701-735 | shows the account that a live hash of 64 characters stands for |
| PasswordDb.Spwd.GetAll | php-spwd/spwd.c:240-291 | the accounts with uid from the start to 65532 in order of their numbers |
| PasswordDb.ListedExactly | php-spwd/spwd.c:266-283 | an account is listed if and only if its uid is from the start to 65532, and without its password |
| PasswordDb.Spwd.Calls | php-spwd/spwd.c:293-699 | after any run of logins, additions, updates and deletions, in which no account is given the name of another, the three stored indexes agree on exactly the accounts of the state machine, the stored hashes are its sessions, and both are safe |
| Sessions.StepIsSafe | php-spwd/spwd.c:543-699 | every operation keeps: names and uids distinct, no uid with two live hashes, every live hash standing for a visible account that exists |
| Sessions.RunIsSafe | php-spwd/spwd.c:543-699 | so does every run of operations |
| Sessions.StepAndSession | php-spwd/spwd.c:1096-1147 | one operation makes a session live, ends it or leaves it alone, and exactly which: a new login of the uid, its deletion, or a token handed out again ends it |
| Sessions.LiveIffGranted | php-spwd/spwd.c:1096-1147 | after any run from an empty store a session is live if and only if a login granted it and no later step ended it |
| Sessions.EmptyIsFrozen | php-spwd/spwd.c:543-699 | in a safe database without accounts every operation is refused from then on |
| LoginClass.ParsePrint | php-spwd/spwd.c:1441-1458 | parsing a printed record gives the entries back if and only if they are free of tabs |
| LoginClass.SetIsUpdate | php-spwd/spwd.c:1389-1428 | setting an entry is the update of the class's table, and no more, if and only if the key holds no equals sign |
| LoginClass.DeleteIsRemoval | php-spwd/spwd.c:1298-1314 | deleting an entry removes its key from the table, and no more |
| LoginClass.OthersStay | php-spwd/spwd.c:1389-1428 | setting an entry leaves all entries with other keys as they are, in their order |
| ClassStore.TakePiece | php-spwd/spwd.c:1444-1453 | one token is cut off in place, and recognised as an entry if and only if colons stand on both sides of the tab before it |
| ClassStore.ParseInPlace | php-spwd/spwd.c:1441-1458 | the pointers it returns are strings inside the buffer, and they are the entries |
| ClassStore.Classes.Get | php-spwd/spwd.c:1149-1199 | the table of a class, none for an unknown class or one without entries |
| ClassStore.Classes.Reprint | php-spwd/spwd.c:1389-1416 | the printed text is that of the entries with the key's ones replaced, and the flag tells whether there were any |
| ClassStore.Classes.SetEntry | php-spwd/spwd.c:1327-1439 | all three ways of writing the record leave the printed form of the updated entries |
| ClassStore.Classes.DelEntry | php-spwd/spwd.c:1261-1325 | the record becomes the printed form of the remaining entries; an unknown class is refused |
| ControlMessages.ControlLength | php-sockets/conversions.c:906-951 | the control length is the sum of the CMSG_SPACE of the messages |
| ControlMessages.OneBack | php-sockets/conversions.c:953-981 | an encoded message anywhere in a buffer is read back, and the next header is looked for right behind its padding |
| ControlMessages.ControlRoundTrip | php-sockets/conversions.c:997-1031 | every list of messages that can be written is read back as it was |
| ControlMessages.ReadIsWritable | php-sockets/conversions.c:441-458 | messages that were read can be written again if and only if no process id among them is negative |
| ControlMessages.NegativePidExample | php-sockets/conversions.c:441-458 | 32 bytes that are read as a message that cannot be written |
| ControlBuffers.ControlBuffer.Reserve | php-sockets/conversions.c:885-894 | growing keeps every byte already written and leaves zeros behind them |
| ControlBuffers.ControlBuffer.PutBody | php-sockets/conversions.c:1290-1325 | writes the fields of a value, or fails exactly when it has the wrong form or a number does not fit |
| ControlBuffers.ControlBuffer.WriteControl | php-sockets/conversions.c:827-905 | appends exactly the encoded message, padding included, or fails exactly when the message cannot be written |
| ControlBuffers.WriteControlArray | php-sockets/conversions.c:906-951 | writes the list if and only if all of its messages can be written, with the summed control length |
| ControlBuffers.ReadControlArray | php-sockets/conversions.c:997-1031 | the walk over the headers ends on every buffer and gives its messages or its first error |
| RenegBucket.LevelIsLargestBurst | php-openssl/xp_ssl.c:1055-1067 | the token count is the largest lead that a run of handshakes up to the last one has over the drain, for every rate and every clock |
| RenegBucket.ClosesOnExcess | php-openssl/xp_ssl.c:1043-1101 | without a callback the connection is to be closed if and only if some run of handshakes exceeds limit and drain |
| RenegBucket.CallbackDecides | php-openssl/xp_ssl.c:1070-1099 | the latest excess decides: the connection stays open if and only if its callback returned true |
| RenegBucket.NeverDrains | php-openssl/xp_ssl.c:1060-1067 | with a limit below the window the connection is closed at the first renegotiation beyond the limit, as with the built-in settings |
| RenegBucket.Rate | php-openssl/xp_ssl.c:1060-1062 | nothing drains if and only if the limit is below the size of the window; the rate is negative if and only if the window is negative and the limit reaches its size |
| RenegBucket.NegativeRateFills | php-openssl/xp_ssl.c:1060-1067 | with a negative rate and a clock that does not run backwards the token count is that of all renegotiations and of the time since the initial handshake |
| RenegBucket.Bucket.LimitHandshake | php-openssl/xp_ssl.c:1043-1101 | the fields after each handshake are the level and the decision for all handshakes so far |
| Alpn.ProtosParse | php-openssl/xp_ssl.c:1498-1527 | fails if and only if the text has 65535 bytes or more or a piece has more than 255; otherwise the output is a length byte and the piece, for every piece |
| Alpn.ParsedProtocols | php-openssl/xp_ssl.c:1498-1527 | the output is one byte longer than the input; decoded and joined with commas it is the input |
| Alpn.DecodeEncode | php-openssl/xp_ssl.c:1498-1527 | decoding gives the pieces back |
| HostMatch.WildcardMatch | php-openssl/xp_ssl.c:366-398 | a wildcard name matches if and only if names are equal but for case, or the subject is prefix, a text without dots, suffix; the search overruns if and only if prefix and suffix match but overlap and the subject holds no dot |
| HostMatch.PlainMatch | php-openssl/xp_ssl.c:366-398 | a name without a wildcard in its first label matches only itself |
| HostMatch.SameLabels | php-openssl/xp_ssl.c:366-398 | a match never spans labels: both names have equally many |
| HostMatch.OverrunExample | php-openssl/xp_ssl.c:390-394 | a subject without a dot and a name for which the search overruns |
| HostMatch.DottedNeverOverruns | php-openssl/xp_ssl.c:390-394 | for a subject with a dot the search never overruns, whatever the certificate name |
| HostMatch.ChooseCertificate | php-openssl/xp_ssl.c:1296-1324 | the first certificate whose name covers the server name is chosen, with as many labels as it, unless the search overruns at an earlier name; for a server name with a dot it never does, and then a certificate is chosen if and only if one covers the name |
| ErrorRing.RunSound | php-openssl/openssl.c:723-746 | after any interleaving the queue is the latest part of what was stored, fetched codes come earlier in the same order, and stored = fetched + dropped + queued |
| ErrorRing.QueueIsLatest | php-openssl/openssl.c:723-746 | storing keeps exactly the last N - 1 codes of the old queue and the new codes |
| ErrorRing.Ring.Put | php-openssl/openssl.c:738-744 | the slots behind bottom up to top are the drop-oldest queue of capacity N - 1 |
| ErrorRing.Ring.StoreErrors | php-openssl/openssl.c:723-746 | storing all pending codes is that of the queue |
| ErrorRing.Ring.ErrorString | php-openssl/openssl.c:5900-5923 | fetching returns the oldest queued code, after the pending ones are stored |
| AliasStore.KeysDiffer | php-net/net.c:2025-2070 | the property names of the two columns and the list are all different |
| AliasStore.PrintedExactly | php-net/net.c:2014-2023 | the list comes out whole if and only if it names at most 1110 aliases |
| AliasStore.PrintedListsExactly | php-net/net.c:2014-2023 | a printed list of d numbers names n aliases if and only if d = n, and at most 1110 |
| AliasStore.MoveUp | php-net/net.c:2028-2058 | one round of the moving loop keeps both columns in step |
| AliasStore.CloseGap | php-net/net.c:2059-2068 | removing the last number leaves the columns without the deleted entry and no stale key |
| AliasStore.Store.MoveColumns | php-net/net.c:2025-2058 | the loop ends behind the last alias, with every later alias moved and the list printed; behind the last alias it moves nothing |
| AliasStore.Store.UpDeletedIp | php-net/net.c:1999-2071 | the columns are the old ones without entry d, if there is one, still paired; the list is the printed numbers, and nothing else changes |
| AliasStore.Store.Ip4Del | php-net/net.c:573-592 | deleting any number removes its entry, if there is one; columns and list are consistent afterwards if and only if the number is at most the number of aliases and at most 1110 aliases remain |
| AliasStore.NewListExactly | php-net/net.c:2395-2420 | adding a number to the list is right if and only if the list has it or it has one digit |
| AliasStore.Store.AddNewIp4 | php-net/net.c:2380-2420 | the alias is stored in both columns, with the interface's enable property and, for the setting AUTO, its flags, and nothing else changes but the list; the whole is consistent if and only if the number is in the list, or the next free one with one digit; with a number behind that one no columns agree |

## Left out

Of the compound-file reader:

- Names of directory entries are not decoded, so looking a stream up by name is not modelled.
- Conversion of byte order and files read from disk: the model is the in-memory, little-endian variant.
- Streams opened at the end mark, and files whose directory starts there: the buffer is never loaded.
- Read: leaves out a stream whose last read or seek failed; a seek that succeeds brings it back.
- The part of the FAT behind the listed sectors is uninitialised in the source and arbitrary here.
- OpenBuffer: asks that reading the DIFAT stops, which DifatHalting and AcyclicStops characterise; the source loops for ever otherwise.

Of the password database:

- Databases of other versions than 4, failing database calls, and more than 2^31 - 2^16 accounts.
- The first account of an empty database: spwd_check_pw_name assigns it no number.
- The text file that is written when NEED_MASTER_SPWD is defined.
- SetEntry: asks that a caller with a live hash names a visible account, since the source dereferences a null name otherwise.
- SetEntry: the name argument is always given, if as null; without it the source dereferences a null pointer (php-spwd/spwd.c:476).
- Get: the name that is looked up fits the 4096 bytes of the key buffer; a longer one runs over it (php-spwd/spwd.c:777-787).
- DelEntry: leaves out uid 2^64 - 1, for which the source dereferences a null name.
- DelEntry: the name that is stored fits the 1024 bytes of the key buffer of spwd_del, which are not checked; a longer one runs over them (php-spwd/spwd.c:1016-1020).
- SetEntry: the old name of the account, which spwd_del gets as well, fits these 1024 bytes too.
- AddEntry, SetEntry and the class operations: ask that names, records and class texts fit the fixed buffers (1024, 4096 and 8096 bytes), which the source does not check.
- The password function is a parameter of the model, the random token an argument; the values of pwd.h are those of FreeBSD, and pwd.h and db.h are not part of this model.
- The check of the login hash in front of the class operations is that of CheckHash; listing all classes is left out.
- Parsing a text that starts with a colon reads in front of the record and is excluded.
- Appending with snprintf from a buffer to itself is modelled as plain appending.

Of the sockets:

- File descriptors (SCM_RIGHTS), messages without level, type or data, numbers given as strings, and addresses given as text: an address is 16 bytes here.
- The values of the registry's constants are a parameter; the size of the header is that of the comment in the source, padded to 8 bytes.
- Failing allocations.

Of the rest:

- Windows of zero seconds in the bucket; products beyond 64 bits; and rounding of its token count, a float of whole numbers that is exact up to 2^24.
- The text of an error code; the ring that is allocated on first use is an empty ring here.
- The branch without ZFS, property names beyond the buffer of KZFS_PARAM_MAX_LEN, the store itself (its functions are not part of this model), and the system calls of an address change: of the settings, CONF and AUTO are modelled as far as they store properties, SYSTEM stores none.
- UpDeletedIp: leaves out the deletion after which no number is printed, that of number 0 with at most one alias, where a null value goes to the store; and the list "0", which is that of a single alias.
- Ip4Del: leaves out what UpDeletedIp does, and negative numbers, whose keys are those of the unsigned numbers they wrap around to.
- AddNewIp4: leaves out negative numbers, of which the list would name the sign only.
- Key generation, certificates, ciphers, the TLS handshake loops and all thin layers over the kernel or OpenSSL.
