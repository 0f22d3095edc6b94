# A verified model of hbackup

hbackup is a content-addressed backup tool. A backup walks a file tree and
writes an *index*: one line of URL-encoded `key=value` pairs per file, closed by
the line `[end]`. Small files stand in the index itself; larger ones are kept in
a *store* under their SHA-1 hash. A restore reads an index back, and a cleanup
removes from the store what no live index needs. The repository can be local or
behind an SFTP server, to which the program talks through a pipelined client.

This project models these parts in Dafny and proves what they promise.

| file | what it models |
|---|---|
| `Bytes`, `UrlCodec`, `Numbers`, `IndexLine`, `IndexText` | the text of an index (`utils.cc`) |
| `Sha1Spec`, `Sha1Example`, `Sha1`, `HashFile` | SHA-1 as RFC 3174 defines it, the streaming implementation, hashing of files (`sha1.c`, `hash.cc`) |
| `HashSet` | the chained hash table (`hash.cc`, `nhbackup.h`) |
| `BufferedFile`, `LocalFile` | the buffering layer and writing to local files (`file.cc`, `local.cc`) |
| `SftpWire`, `SftpAttrs`, `SftpEngine`, `SftpFiles`, `SftpStore` | the SFTP client (`sftp.cc`) |
| `Names`, `Walk`, `WalkFacts`, `Records`, `IndexExample` | the order and the lines of an index (`backup.cc`) |
| `Repository`, `Backup` | the store, and the backup step by step (`backup.cc`) |
| `Cleanup`, `History` | the cleanup, and sequences of backups and cleanups (`cleanup.cc`) |
| `Target`, `Restore`, `RestoreSteps`, `RestoreAny`, `RestoreFacts`, `RoundTrip` | the restore, and the way from a backup to a restore (`restore.cc`) |

## How it is modelled

* Code that changes things step by step is imperative here too: the file buffer,
  the SHA-1 context, the hash table with its linked nodes, the SFTP client and
  its files, and the backup are classes whose methods are proved against
  functions of their state; the codecs, the cleanup and the restore are loops.
* `BufferedFile.Storage` is a flat filesystem that remembers, for proof only,
  every state it has been in. A crash is a stop in one of these states, so what
  holds in all of them holds after a crash.
* A read may deliver any non-empty part of what was asked for, an SFTP server
  may answer outstanding requests in any order, directory listings come in any
  order and the clock shows anything.
* SHA-1 is the real function. That no two contents collide is a hypothesis of
  the restore theorems only (`RoundTrip.NoCollision`), about the contents at
  hand.

## What the proofs found

* `local.cc:54` asks for the full count again after a short write, so a file
  can get octets from beyond the data. It is right for every behaviour of the
  system if and only if there is at most one octet to write
  (`LocalFile.WritesExactly`).
* `sftp.cc:185-189` never counts down, so extended attributes are never read to
  their end. For well-formed replies `SftpAttrs.UnpackAttrs` does what is meant if
  and only if the reply announces none.
* `utils.cc:217` tests against the parameter instead of the limit. A cut-off
  escape at the end of a line is then caught only because the terminating NUL is
  no digit; the exception is `BadHexDigit` instead of `BadHex`
  (`UrlCodec.UrlDecode`).
* `file.cc:84` notes end of file when nothing is asked for. While something is
  left to be delivered, end of file is noted if and only if nothing was asked
  for (`BufferedFile.File.GetBytes`; a file for which this hides the rest is in
  `BufferedFile.File.AskForNothing`).
* The index records inode numbers without devices. A restore is right if and
  only if, among the files with several links, equal inode numbers are on the
  same device (`RoundTrip.RestoreRebuilds`); two linked files with the same
  number, one on a filesystem mounted below, are restored as one
  (`RoundTrip.CrossedTreeIsNotRebuilt`).
* `sftp.cc:337-345` waits for the front of the queue but removes another write.
  What is still queued can be waited for exactly if the one removed was the
  front (`SftpFiles.SftpFile.SynchronizeOne`), which holds as long as one write
  is outstanding; otherwise the reply waited for next never comes, however many
  others do (`SftpFiles.SftpFile.CollectAndWait`).
* Ids repeat after 2^32 - 1 requests (`SftpEngine.IdsRepeatWithPeriod`); up to
  then every reply is accounted for. A reply that had come before its request
  was ignored leaves the id in `ignored` (`sftp.cc:800-803`), and the reply to a
  request that gets this id again is dropped (`SftpEngine.IgnoredIdLosesReply`).
* A file closed with reads in flight does not ignore them (`sftp.cc:246-249`), so
  their replies stay with the client; none stays if and only if no read was in
  flight (`SftpFiles.SftpFile.Destroy`).

## Model

| member | source | states |
|---|---|---|
| `UrlCodec.UrlEncode` | utils.cc:167-198 | the encoding loop computes, character by character, the encoding that decoding inverts |
| `UrlCodec.UrlDecode` | utils.cc:201-234 | the decoding loop over a piece of a line, with the exception raised for each kind of malformed escape, also for one cut off at the end of the line |
| `UrlCodec.UrlDecodeInvertsUrlEncode` | utils.cc:167-234 | every byte string comes back, wherever its encoding stands in a line |
| `UrlCodec.UrlEncodedIsPlain` | utils.cc:176-195 | encoded text is printable and free of `&`, `=`, `;` and newline |
| `UrlCodec.EncodedIsSame` | utils.cc:176-195 | text is left as it is if and only if it has no other characters, and no `+` or `%` |
| `IndexExample.EscapeExamples` | utils.cc:176-195 | how a space, a sign and an octet beyond the printable ones are written |
| `UrlCodec.UrlDecodesIfGood` | utils.cc:201-234 | decoding succeeds if and only if every percent sign is followed by two digits |
| `UrlCodec.HexDigitMeans` | utils.cc:131-153 | sixteen digits, and six of them in either case |
| `UrlCodec.HashDecode` | utils.cc:236-263 | a hash is accepted exactly if it has 40 hex digits, and is the twenty octets they stand for |
| `UrlCodec.HashIfFortyDigits` | utils.cc:236-263 | forty digits in either case are a hash, and nothing else is |
| `UrlCodec.HashDecodeInvertsHexEncode` | utils.cc:155-263 | decoding a printed hash gives the hash back |
| `UrlCodec.HashPath` | utils.cc:266-274 | the place of a hash: two directories named by its first octets, then the whole hash |
| `UrlCodec.HashPathDirectories` | utils.cc:266-274 | the first directory is the first two digits of the hash, the second the next two |
| `UrlCodec.HashPathInjective` | utils.cc:266-274 | different hashes have different places in the store |
| `Numbers.StrtoullOfDecimal` | restore.cc:201-202 | times and inode numbers printed in decimal are read back |
| `Numbers.StrtolOfOctal` | backup.cc:205-212 | permissions printed in octal with a leading zero are read back |
| `IndexLine.ParseIndexLine` | utils.cc:277-291 | the parsing loop by positions in the line computes the pairs, later ones overriding earlier ones, or the exception |
| `IndexLine.ParsedIfGoodFields` | utils.cc:277-291 | a line is accepted if and only if every field between ampersands has an equals sign and no broken escape |
| `IndexLine.ParseInvertsPrint` | utils.cc:277-291 | for all keys and values the printed line is parsed back into the same map |
| `IndexLine.DistinctKeysAllFound` | utils.cc:303-308 | with distinct keys each value is found under its key, and no other key is |
| `IndexText.TruncationIsDetected` | utils.cc:294-300 | of an index cut anywhere, reading succeeds exactly if the closing bracket of the end mark is there; otherwise what was delivered are original entries except perhaps the last |
| `IndexText.ReadInvertsPrint` | utils.cc:294-300 | a whole index is read back entry by entry |
| `IndexText.ReadToEndMark` | utils.cc:294-300 | of any text up to an end mark, reading succeeds if and only if every line is well formed, and what follows does not matter |
| `IndexText.ReadWithoutEndMark` | utils.cc:294-300 | text without an end mark is never read to the end without an exception |
| `Sha1.Sha1Context.Input` | sha1.c:159-209 | any chunk extends the message taken in; a total of 2^61 octets corrupts the context and later input changes nothing |
| `Sha1.Sha1Context.InputByte` | sha1.c:184-206 | the block index stays below 64 and the two length words hold eight times the octet count |
| `Sha1.Sha1Context.ProcessMessageBlock` | sha1.c:232-317 | the registers become those of sections 6.1 and 5 of RFC 3174 for the block |
| `Sha1.Sha1Context.PadMessage` | sha1.c:343-389 | the registers become those of the message padded as section 4 of RFC 3174 says, with two compressions if the block has no room for the length and one otherwise |
| `Sha1.Sha1Context.Result` | sha1.c:101-137 | the digest of the whole message however it was divided, exactly for totals below 2^61 octets |
| `Sha1Spec.ProcessSplit` | sha1.c:184-206 | whole blocks can be absorbed piece by piece |
| `Sha1Spec.ShiftsRotate` | sha1.c:36-37 | shifting left brings in on the right what goes out, for the three distances used |
| `Sha1Spec.ChooseChooses` | sha1.c:269-270 | bit by bit the first word chooses between the others |
| `Sha1Spec.ParityIsOdd` | sha1.c:281-281 | bit by bit the parity of the three |
| `Sha1Spec.MajorityWins` | sha1.c:291-292 | bit by bit what two of the three have |
| `Sha1Spec.JoinedInOrder` | sha1.c:248-254 | four octets make a word, the first the most significant |
| `Sha1Spec.PaddedShape` | sha1.c:343-389 | octet by octet: the message, a one bit, zeros and the length in bits, and no shorter text of whole blocks has these |
| `Sha1Example.DigestOfAbc` | sha1test.c:31-46 | the digest of `abc` is the one that the test program expects |
| `HashFile.Hash.Write` | nhbackup.h:476-479 | what a chunk adds, also when its length does not fit the 32-bit parameter |
| `HashFile.HashByReading` | hash.cc:126-137 | the reading path gives the digest of the file, or the error for one that is too long, under every pattern of short reads |
| `HashFile.HashByMapping` | hash.cc:98-125 | the mapping path, in chunks of up to 256 Mbyte, gives the same |
| `HashFile.HashWholeFile` | hash.cc:93-141 | the result does not depend on the hint |
| `HashSet.Table.Insert` | hash.cc:51-63 | the set gains the hash and nothing else, and chains stay acyclic, in their buckets and free of duplicates |
| `HashSet.Table.Has` | hash.cc:84-91 | exact membership |
| `HashSet.ChainIsAcyclic` | nhbackup.h:493-496 | a chain that comes to an end meets no node twice |
| `BufferedFile.File.Fill` | file.cc:22-33 | refilling loses nothing and repeats nothing |
| `BufferedFile.File.Getch` | nhbackup.h:206-210 | the next character of the stream, or its end |
| `BufferedFile.File.GetLine` | file.cc:53-60 | the next line, a last one without newline included |
| `BufferedFile.File.GetBytes` | file.cc:62-90 | the next piece of the stream, all that was asked for if `all`; with something left, end of file is noted if and only if nothing was asked for |
| `BufferedFile.File.AskForNothing` | file.cc:62-90 | asking for nothing first, of any file larger than the buffer, notes an end of file that is not there |
| `BufferedFile.File.PutString` | file.cc:105-109 | what was put is appended, and on the way the file always holds a prefix of it |
| `BufferedFile.File.Flush` | file.cc:129-139 | afterwards the file is the concatenation of everything put |
| `LocalFile.WriteBytes` | local.cc:50-58 | the file gets as much of memory as the counts accepted add up to, which is the data exactly if they add up to its length |
| `LocalFile.WritesExactly` | local.cc:50-58 | this is the data for every behaviour of the system if and only if there is at most one octet to write |
| `SftpWire.UnpackInvertsPack` | sftp.cc:96-161 | each of the thirteen requests that carry an id is unpacked from its packet into the same request |
| `SftpWire.RequestNumbers` | sftp.cc:24-51 | the type of each request is the number that the draft gives it |
| `SftpWire.ReplyNumbers` | sftp.cc:24-90 | so are the types of replies, the status codes and the open flags |
| `SftpWire.ReadExample` | sftp.cc:256-264 | a request to read, octet by octet |
| `SftpWire.UnframeInvertsFrames` | sftp.cc:379-382 | a stream of length-prefixed packets is taken apart into the packets |
| `SftpWire.Recv` | sftp.cc:390-403 | receives exactly the next packet under every pattern of short reads |
| `SftpWire.RecvAll` | sftp.cc:390-403 | receiving again and again delivers every packet that was sent, once and in order |
| `SftpAttrs.UnpackAttrs` | sftp.cc:169-191 | for well-formed replies gives the attributes meant if and only if the reply announces no extended ones |
| `SftpAttrs.PlainInvertsPack` | sftp.cc:169-183 | for every combination of flags the fields are read where the draft lays them out |
| `SftpAttrs.PlainExample` | sftp.cc:169-183 | a size and permissions, octet by octet |
| `SftpAttrs.ExtendedExample` | sftp.cc:184-190 | a well-formed reply for which it does not |
| `SftpEngine.Sftp.Poll` | sftp.cc:815-831 | takes one reply off the wire: stashed, or dropped if ignored, the id then being forgotten; every request stays accounted for in exactly one place, and one already handed out never comes again |
| `SftpEngine.PollStream` | sftp.cc:815-831 | off a stream of framed replies in any order, chopped up in any way, each reply is stashed or dropped in turn |
| `SftpEngine.AnswersAreLabelled` | sftp.cc:815-824 | replies as the server encodes them, in whatever order, show the ids they came under |
| `SftpEngine.Sftp.Submit` | sftp.cc:373-382 | a request gets a fresh id, below 2^32 - 1 of them, and no reply is lost on the way |
| `SftpEngine.Sftp.Await` | sftp.cc:805-813 | ends, and returns the server's reply to that very request |
| `SftpEngine.Sftp.Ignore` | sftp.cc:800-803 | nobody waits for the request any more, and a reply to it will be dropped or is thrown away |
| `SftpEngine.Sftp.PrefigureExists` | sftp.cc:843-855 | the existence test joins those in flight, and the cache to come knows its answer |
| `SftpEngine.Sftp.Exists` | sftp.cc:649-670 | uses up a prefetched answer, or asks; recurses at most once |
| `SftpEngine.IdsRepeatWithPeriod` | sftp.cc:837-841 | two ids are equal if and only if they were issued a multiple of 2^32 - 1 apart |
| `SftpEngine.IgnoredIdLosesReply` | sftp.cc:800-831 | whatever replies come in and in whatever order, the one reply to a request is there to be awaited if and only if its id was not still ignored |
| `SftpFiles.SftpFile.ReadBytes` | sftp.cc:253-307 | with eight reads in flight answered in any order, the next piece of the remote file, and nothing only at its end; an error only if the server turned one of its reads down with that code |
| `SftpFiles.SftpFile.ReadToEnd` | sftp.cc:253-307 | from any state of the reader all pieces together are the rest of the remote file, unless the server turned a read down, and exactly `Ahead` ids are used |
| `SftpFiles.SftpFile.AheadOfNewFile` | sftp.cc:253-307 | for a file just opened these are as many as it has pieces of the size asked for, and eight |
| `SftpFiles.ReadAheadNeedsFullReads` | sftp.cc:254-272 | the pieces that consecutive reads bring add up to the file if and only if every read is full up to end of file |
| `SftpFiles.SftpFile.WriteBytes` | sftp.cc:309-329 | at most one write is outstanding, its data is at the end of the remote file, no status that is there is left, and an error is one that the server reported |
| `SftpFiles.SftpFile.SynchronizeOne` | sftp.cc:331-348 | awaits the front but removes the id chosen; an error is reported exactly if the server reported one for the front, and all that is still queued can be awaited if and only if the front was chosen |
| `SftpFiles.SftpFile.Flush` | file.cc:129-139 | afterwards no write is outstanding; either the remote file has got exactly the data or the server turned the write down |
| `SftpFiles.SftpFile.CollectAndWait` | sftp.cc:331-348 | for any queue and any choice but the front, the next reply waited for is used up already and never arrives, however many others do |
| `SftpFiles.SftpFile.Destroy` | sftp.cc:246-249 | no write stays queued without an error, and the handle is closed; of the reads in flight all stay with the client, so that none does if and only if there was none |
| `SftpStore.StoreObject` | backup.cc:309-342 | an object is written under a temporary name and renamed, with one id for each 4096 octets and three or four more; other files stay, and it fails only if the server refuses |
| `SftpStore.WritesOf` | file.cc:105-139 | an object takes as many writes as it has begun pieces of 4096 octets |
| `SftpStore.RenameInto` | sftp.cc:489-523 | with the extension, or without once the server is known to lack it: all or nothing, it fails only if the server refuses otherwise than by lacking the extension, and the fallback costs one id once |
| `SftpStore.ItemsApart` | backup.cc:259-267 | the objects a backup notes have different places, none of them another's temporary name |
| `SftpStore.StoreMissing` | backup.cc:305-346 | for the objects a backup notes, each prefetched answer is what a test made when it is used would say, though objects were stored in between; the files are left as `Backup.Backup.StorePending` leaves them, and the cache is empty |
| `Names.SortedIsUnique` | backup.cc:177-180 | a set of names has one sorted list |
| `Names.LexIsFirstDifference` | backup.cc:180 | the order of names is that of the first octet in which they differ, and a name comes before its extensions |
| `Names.Sort` | backup.cc:180 | sorts a listing by the first differing octet without losing or adding names |
| `Backup.Backup.Compress` | backup.cc:189-203 | the name as written: in full at the start of a directory and in the root, else relative |
| `WalkFacts.IndexLists` | backup.cc:138-176 | the index lists exactly the selected part of the tree |
| `WalkFacts.IndexOrder` | backup.cc:347-360 | every directory comes before its entries, which stand together and in the order of the first octet in which their names differ; all below one directory comes before all below the next; no path has two lines |
| `WalkFacts.IndexIsShortened` | backup.cc:189-203 | a line has the full path at the start of a directory and in the root, and else the name after `./` |
| `WalkFacts.IndexNamesExpand` | restore.cc:53-70 | for every tree the compressed names are read back as the original paths |
| `Records.RecordIsPrinted` | backup.cc:205-303 | the pieces of text that the backup prints are the printed pairs of the entry |
| `Records.RecordDescribes` | backup.cc:205-303 | reading the line of an entry back gives each of its details, its three times included, and no other type, content, target or inode |
| `IndexExample.LineExample` | backup.cc:205-280 | the line of a small file with two links, key by key |
| `IndexExample.OtherExamples` | backup.cc:286-292 | what the lines of a directory and of a link have |
| `IndexExample.MarkExamples` | backup.cc:98-101 | the end mark, and the suffix of files being written |
| `IndexExample.SmallFilesInIndex` | backup.cc:214-232 | up to 256 octets the content stands in the line, and beyond that the hash |
| `IndexExample.PlaceOfHash` | backup.cc:262-262 | an object's place is `sha1`, the two directories and the whole hash, below the repository |
| `Backup.Backup.ReadSmall` | backup.cc:217-227 | a small file is read up to the size `lstat` gave, or the backup stops if it has shrunk |
| `Backup.Backup.PrintEntry` | backup.cc:184-303 | one line of the index; a large file's hash is then in the store or among the copies put off, where no hash stands twice |
| `Backup.Backup.StoreObject` | backup.cc:309-346 | the object is in place with matching content, and no step on the way harms what was there |
| `Backup.Backup.StorePending` | backup.cc:309-346 | afterwards every hash in `inrepo` is in the store, and the files are what storing each missing object in turn makes of them |
| `Backup.Backup.BackupDir` | backup.cc:125-361 | the lines written are those of the walk whatever the order of listings, and nothing is pending between directories |
| `Backup.DoBackup` | backup.cc:80-113 | at every step, and in what is left when it ends or fails, the repository extends what it was: store sound, objects kept, nothing new in the store but at the places of hashes, no unrestorable complete index; a finished index is the one of the tree |
| `Backup.BackupStaysTreelike` | backup.cc:80-113 | if no file was in the way, no file comes to stand where a directory is, and none is in the way of the next backup |
| `Repository.ExtendsKeepsSafe` | backup.cc:98-112 | whatever indexes were restorable stay restorable |
| `Repository.PieceIsRestorable` | backup.cc:98-101 | with all objects in place any prefix of the index may be on disk |
| `Repository.StoringKeepsSound` | backup.cc:329-342 | renaming an object into place keeps the store sound if and only if its content has the hash, which is what the recheck tests |
| `Cleanup.ReadHashes` | cleanup.cc:40-60 | an index is bad exactly if it is cut off or malformed or has a malformed hash; otherwise all its hashes are noted |
| `Cleanup.Kept` | cleanup.cc:96-111 | a file is kept exactly if its name is a needed hash and, if contents are checked, its content has it |
| `Cleanup.KeepIsWanted` | cleanup.cc:96-111 | that is, if the name is a hash that an entry of some listed index has |
| `Cleanup.CleanRecurse` | cleanup.cc:84-138 | exactly the doomed files below the directory go, unless they cannot be removed, and are counted |
| `Cleanup.DoClean` | cleanup.cc:28-81 | deletes only if every listed index is there and well formed; then of the store exactly the files stay whose name is a hash that some listed index has, and those that cannot be removed, or the others are printed; no file comes to stand where a directory is |
| `Cleanup.NeededStays` | cleanup.cc:96-111 | without the check of contents no needed object is doomed |
| `Cleanup.CleanedKeepsSafe` | cleanup.cc:34-81 | the listed indexes stay restorable, also with the check of contents |
| `History.FileStays` | backup.cc:80-113 | a kept index that no backup of the run writes to stays as it is, whatever the run does |
| `History.RunKeepsSafe` | cleanup.cc:34-81 | over any sequence of backups and cleanups, finished or cut off, all kept indexes stay restorable, and those no backup writes to stay unchanged |
| `History.BackUp` | backup.cc:80-113 | every state that a backup goes through, and the one it leaves however it ends, is one of those considered there |
| `History.CleanUp` | cleanup.cc:28-138 | so is every state of a cleanup that is given the complete indexes, and the one it leaves, also if it refuses |
| `Restore.CopyFromStore` | restore.cc:166-174 | the copying loop brings over the whole object |
| `Restore.DoRestore` | restore.cc:36-219 | the whole restore of any text: where it stops, with which exception, and what is there then |
| `RestoreAny.AnyTurn` | restore.cc:50-211 | for any line and any target: the turn goes on if and only if the link source or the object is there, the hash well formed, the type known, and no directory in the way; and then the name leads to what the line says, with owner, permissions and times or without |
| `RestoreAny.NeedsObject` | restore.cc:158-180 | so a turn that goes on has found the object of a file kept by hash |
| `RestoreAny.NothingLeftUnmade` | restore.cc:36-219 | a restore of any text to any target that reports no failure has read a complete index and done every line |
| `RestoreSteps.TurnSpares` | restore.cc:50-211 | any line whatever, whether it ends well or not, touches no name but its own and its temporary one, and writes into no file that was there |
| `RestoreFacts.TmpIsNew` | restore.cc:72-76 | the temporary name of an entry is never one restored before, even if the tree has names with that suffix |
| `RestoreSteps.NewEntryTurn` | restore.cc:89-210 | an entry becomes a new file that is what the line says, with the content the store has, ownership before permissions so that set-id bits survive |
| `RestoreSteps.MissingEntryEnds` | restore.cc:158-180 | an entry without its object ends the restore |
| `RestoreSteps.LinkEntryTurn` | restore.cc:77-87 | a further link becomes one more name of the file restored before |
| `RestoreFacts.LinesTurn` | restore.cc:50-211 | the loop comes to the end of an index if and only if the objects asked for are there; then every file shows what the first file with its inode number was |
| `RestoreFacts.DirTimesSet` | restore.cc:216-219 | setting the directory times at the end sets them all and disturbs nothing else |
| `RoundTrip.RestoreEndsWell` | restore.cc:36-220 | restoring the index of a tree into an empty directory ends well if and only if there is an object at the place of each large file, of files with one inode number the first; then the tree is rebuilt with the contents the store has, if and only if inode numbers identify the multiply-linked files |
| `RoundTrip.AskedForEach` | restore.cc:158-180 | if they do, the objects asked for are those of every selected large file |
| `RoundTrip.RestoreRebuilds` | restore.cc:36-220 | restoring a restorable index of a tree into an empty directory ends well, and rebuilds the tree if and only if inode numbers identify the multiply-linked files |
| `RoundTrip.CrossedTreeIsNotRebuilt` | restore.cc:77-87 | a tree that `lstat` can show, whose restore ends well without rebuilding it |
| `RoundTrip.SmallTreeNeedsNoStore` | restore.cc:147-157 | a tree of small files is restored from its index alone, whatever the repository holds |
| `RoundTrip.CutIndexIsRefused` | restore.cc:50-50 | restoring an index that has lost its closing bracket or more ends with an exception |
| `RoundTrip.RestoreAnyTimeLater` | restore.cc:36-220 | the same at any later time, after any backups and cleanups that were told to keep the index |
| `RoundTrip.BackupIsSafe` | backup.cc:80-113 | the index that a finished backup leaves is safe to keep from then on |
| `RoundTrip.BackUpCleanUpRestore` | restore.cc:36-220 | backing up, cleaning up with the new index listed, whatever the options, and restoring: ends well, and rebuilds the tree if and only if inode numbers identify the multiply-linked files |

## Left out

- Hints (`--hint-file`): that an unchanged size and unchanged times mean unchanged content is an assumption; the model is of runs without hints.
- Restoring access times after reading (`preserve_atime`).
- Device files and sockets: not in the trees that are backed up; a restore stops at one (`Restore.RestoreFailure.Unsupported`), where the program makes it.
- Files that vanish between listing and `lstat` are passed over as in the program; other failures of the host filesystem, files of unknown type, and trees that change between `lstat` and hashing are not modelled.
- The repository lies outside the tree that is backed up.
- Creating the directories of the store (`makedirs`), and what else could go wrong in a filesystem without directories; in `Cleanup` directories are the prefixes of file names, and no file is also one, which backups and cleanups keep so.
- Exclusions are a set of paths, the mount test is part of the tree, and user and group names map to themselves: wrappers over PCRE, `stat` and the user database.
- Character recoding is the identity.
- `SftpFilesystem::type`, `contents`, `mkdir`, `remove`: request and reply in turn, nothing beyond what `Await` and the packets of `SftpWire` say. The version exchange when a connection is opened, which has no ids, likewise.
- Deadlock from full pipes in `send`.
- Closing a handle does not make the server forget it in the model.
- BufferedFile.Storage: accepts a write completely, so what short writes do to a local file is stated in `LocalFile` only.
- Numbers.Strtoull: text that starts with white space or a sign is read as zero; the program never writes such text.
- IndexLine.ParseIndexLine: of two malformed halves of one pair the key's error is reported; C++ leaves the order open.
- UrlCodec.UrlDecode: the two digits of an escape are looked at from left to right; C++ leaves the order open.
- Backup.DoBackup: with `--no-recheck-hash` the files must not change between hashing and copying; with the recheck, which is the default, they may.
- Target.Removed: names are taken as they are, without resolving dots or symbolic links; an index written by other means could hold such names.
- RestoreAny.AnyTurn: not for a line whose name is `.`, which would be the root itself; the program never writes one.
- RestoreFacts.Rebuilt: does not speak of the times of symbolic links, which the restore does not set.
- The Python script of the same name, `verify.cc`, the command line, messages and counters.
