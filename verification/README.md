# Verified models of the Inferno libraries

This project models ten pieces of C code and proves what they promise. Each piece is
self-contained; the modules follow the source files.

* **Readers/writer lock** (`lib9/lock.c`; `QLock.dfy`, `RWLock.dfy`, `RWLockRuns.dfy`,
  `RWLockUse.dfy`). A state machine with any number of processes: two queue locks `x` and `k`, a
  spin lock `l` and a reader count. Acquiring and releasing a spin lock are steps of their own, and
  so is each critical section; `osblock` and `osready` are a token for each process, so a wake-up
  that comes before the sleep is not lost. `RWLock.DoStep` is the step relation,
  `RWLockRuns.IsRun` a run under any schedule.
* **Compressed images** (`libdraw/writeimage.c`, `libdraw/computil.c`, `libmemdraw/cload.c`,
  `libmemdraw/cread.c`; `ImageCode.dfy`, `HashWindow.dfy`, `WriteImage.dfy`, `LoadImage.dfy`).
  `ImageCode.Decode` is the meaning of a compressed block; the compressor, with its ring of doubly
  linked hash chains, and the decoder, with its ring of bytes and its line ends, are proved against
  it, and an image that is written and read again is the same image (`LoadImage.WriteThenRead`).
* **Buffered reader** (`libbio`; `Bio.dfy`, `BioRuns.dfy`). A class with the fields of a Biobuf over
  a file whose reads may be short or fail, and an unbuffered reader (`BioRuns.Plain`,
  `BioRuns.Answers`) to compare it with.
* **Path cleaner** (`lib9/cleanname.c`; `CleanName.dfy`, `CleanText.dfy`). A path means a stack of
  components (`CleanName.Fold`); the in-place rewrite is proved to leave the spelling of that stack,
  and `CleanText.dfy` says what that is as a text, by cutting names at their slashes.
* **UTF-8** (`lib9/rune.c`; `Utf8.dfy`), against sections 3 and 4 of RFC 3629.
* **Quoting printer and tokenizer** (`lib9/fmtquote.c`, `lib9/tokenize.c`; `Quote.dfy`,
  `QuotePrint.dfy`, `Tokenize.dfy`, `QuoteTokens.dfy`), which undo each other.
* **9P messages** (`lib9/convS2M.c`, `lib9/convM2S.c`; `Fcall.dfy`, `FcallWrite.dfy`,
  `FcallRead.dfy`, `Messages.dfy`, `FcallBack.dfy`). The format is 9P2000, section 5 of the Plan 9
  Programmer's Manual, intro(5). `NinePMessages.Message` has the 27 messages with the fields of the
  C structure, and `NinePMessages.Wire` their bytes one after the other. The code works through a
  table of kinds of fields (`NineP.Layout`), which is proved to give just those bytes and fields;
  where an arm of a switch checks the room for several numbers at once, the model checks one number
  after the other, with the same result. The buffer code works in place.
* **Font cache** (`libdraw/font.c`; `FontCache.dfy`). What the device and the search for a subfont
  come to is arbitrary.
* **Stem linking** (`libfreetype/aflatin.c`; `StemLinks.dfy`).
* **Quicksort** (`lib9/qsort.c`; `QSort.dfy`) and **Adler-32** (`libfreetype/adler32.c`;
  `Adler32.dfy`), the latter against section 2.2 of RFC 1950.

`Bytes.dfy` holds what several modules share.

Eight things turned out to be false of the code, or true only under a condition that the model
states exactly.

* A seek within the file does not always go where it is asked to. When the displacement is far
  back, the 32-bit `icount` of `Bseek` wraps into the buffered range, and the seek reports success
  and ends somewhere else (`BioRuns.SeekTooFarBack`); or it becomes -2^31, which is its own
  negation, and the seek reports success and leaves `icount` pointing far outside the buffer
  (`BioRuns.SeekLosesWindow`: seek to 2^31-1, one further, and back to 0, on any file). The
  contract of `Bseek` has both cases exactly; a displacement that a caller may use whatever is in
  the buffer is one with `BioRuns.SafeBack`, and `BioRuns.SafeIsExact` shows that every other
  displacement is mistaken at some fill of the buffer. Every displacement above -2^31 + bsize is
  safe.
* A seek back into the buffer can go to the wrong bytes after the end of the file. A Bgetc that
  notices the end sets `gbuf` to the front of the buffer, good or not; another one makes the reader
  active again, and then `Bseek` trusts the whole buffer, until one more Bgetc or a short
  Bread notices the end again, or a Brdline resets `gbuf` (`BioRuns.Buffered`, `BioRuns.Next`). A seek back into a buffer
  that is only trusted reports success, and it is right if and only if the buffer happens to hold
  the bytes of the file up to where it ends (`BioRuns.SeekTrusted`); every other seek with a safe
  displacement is right (`BioRuns.Run`). To the end, two Bgetc, and back to 0 is a case
  (`BioRuns.SeekAfterTwoEnds`).
* A seek to before the start of the file, and no other safe one, leaves the reader with the offset
  -1 and the descriptor where it was, so that Boffset and the file disagree
  (`BioRuns.SeekBeforeStart`).
* `sizeS2M` wraps around at 2^32 (`NineP.SizeWraps`), and a string of more than 65535 bytes or too
  many names or qids do not survive the round trip (`NineP.RoundTrip` is an if and only if).
* An image of some height and no width is written as no blocks at all, and what has been written
  can not be read again; every other image can (`LoadImage.WriteThenRead` is an if and only if).
* `runenlen` counts one byte too many for a rune above 0x10FFFF (`Utf8.RuneNLen`).
* The quoting printer may put quotes around a text that does not need them. It does so if and only
  if the first character that needs quotes is a single quote and there are exactly three bytes of
  room behind the text before it (`Quoting.NeedlessQuotes`); the string of one single quote, with
  room for three bytes, is a case (`Quoting.LoneQuote`). What is printed still reads back as what
  was accepted (`QuoteTokens.PrefixReadsBack`).
* A character whose bits the device did not take may be found in the font cache. `loadchar` writes
  the slot before it asks the device, so from then on the character is found if and only if the
  slot had been in use and the cache was not wiped (`FontCache.Font.CacheOne`).

## Model

| member | source | states |
|---|---|---|
| QueueLock.LockKeeps | lib9/lock.c:40-60 | every step of `qlock` keeps the invariant of a queue lock: the queue is linked from head to tail, an unlocked lock has no queue, there is one owner, and no wake-up is lost |
| QueueLock.TryKeeps | lib9/lock.c:62-74 | every step of `canqlock` keeps it |
| QueueLock.UnlockKeeps | lib9/lock.c:76-93 | every step of `qunlock` keeps it |
| QueueLock.PopQueue | lib9/lock.c:81-88 | the first in the queue leaves it, and the lock stays locked for it |
| QueueLock.EnterQueue | lib9/lock.c:51-58 | who finds the lock taken joins at the end of the queue |
| RWLock.StepInv | lib9/lock.c:40-141 | one inductive invariant ties `readers`, the owners of `x` and `k`, the spin lock, both queues and the wake tokens together, and every step of every process keeps it |
| RWLock.CanQLockNeverBusy | lib9/lock.c:62-66 | when a reader calls `canqlock(&l->k)`, `k.use` is free |
| RWLock.CanQLockMeaning | lib9/lock.c:95-104 | it then finds `k` taken exactly when there are readers before it |
| RWLockRuns.StepGood | lib9/lock.c:40-93 | read off the links, the queues change only by an arrival at the end or a departure from the front |
| RWLockRuns.MutualExclusion | lib9/lock.c:95-141 | in every state of every run, a writer past `wlock` excludes every other writer and every reader |
| RWLockRuns.CanQLockInRun | lib9/lock.c:95-118 | in every run, `canqlock(&l->k)` fails exactly because of earlier readers, and its success means that there are none |
| RWLockRuns.WritersComeFirst | lib9/lock.c:95-134 | as long as a writer owns `x` the reader count never rises |
| RWLockRuns.CanRLockPunts | lib9/lock.c:106-118 | `canrlock` gives up if a writer owns `x` or anyone waits for it |
| RWLockRuns.OneWaiterForK | lib9/lock.c:129-134 | at most one process waits for `k`, a writer that owns `x` |
| RWLockRuns.LastReaderPassesK | lib9/lock.c:120-127 | the last reader out hands `k` to the waiting writer without unlocking it, and unlocks it if there is none |
| RWLockRuns.NoOvertaking | lib9/lock.c:51-59 | in every run the queue of `x` is served in the order of arrival |
| RWLockRuns.NoDeadlock | lib9/lock.c:40-141 | in no reachable state is everybody stuck: if anybody is inside an operation or a section, somebody can step |
| RWLockRuns.IdleMeansFree | lib9/lock.c:95-141 | when everybody is outside, the lock is as it was created |
| RWLockRuns.RunsDrain | lib9/lock.c:40-141 | without new calls every schedule ends after at most 22 steps a process, with everybody outside and the lock free |
| RWLockUse.SectionOfCall | lib9/lock.c:95-141 | in every run, who is in the section of a reader has called `rlock` or `canrlock`, and who is in that of a writer has called `wlock` |
| RWLockUse.ReadersShare | lib9/lock.c:95-118 | when everybody else is outside or reading, a process that calls `rlock` or `canrlock` gets to its section by its own steps alone, with the others where they were and one reader more |
| RWLockUse.WriterEnters | lib9/lock.c:129-134 | when everybody is outside, a process that calls `wlock` gets to its section by its own steps alone |
| ImageCode.DecodeAppend | libdraw/computil.c:4-8 | codes are decoded one after the other |
| ImageCode.DumpCode | libmemdraw/cload.c:32-45 | a byte from 128 on is followed by one byte more than it is above 128, which stand for themselves |
| ImageCode.MatchCode | libmemdraw/cload.c:46-64 | two bytes stand for 3 to 34 bytes from 1 to 1024 back: five bits of length, ten of distance |
| ImageCode.CopyIs | libmemdraw/cload.c:54-63 | every byte of a match is equal to the one as far back, its own bytes included |
| ImageCode.CopyRepeats | libdraw/writeimage.c:139-143 | copying byte by byte from a place where the text repeats gives the text, even if source and copy overlap |
| ImageCode.TwiddleCommutes | libdraw/computil.c:9-25 | decoding a twiddled code gives the complement of every byte, and fails exactly when decoding the code does |
| ImageCode.FlipBits | libdraw/computil.c:20-21 | flipping a byte inverts each of its eight bits |
| ImageCode.TwiddleTwice | libdraw/computil.c:9-25 | twiddling is its own inverse |
| ImageCode.TwiddledLoads | libdraw/computil.c:9-25 | twiddling changes neither the lengths of the codes nor how many bytes they stand for |
| WriteImage.TwiddledImage | libdraw/creadimage.c:107-108 | every block that decodes can be twiddled, and twiddling all blocks of an image complements every byte of it |
| ImageCode.TwiddleCompressed | libdraw/computil.c:9-25 | the code in place does that to the buffer |
| ImageCode.CompBlockSize | libdraw/computil.c:27-37 | a block is never smaller than one compressed line may be |
| HashWindow.Cut | libdraw/writeimage.c:146-147 | the slot to be reused is the last of its chain, and clearing the `next` before it takes it off |
| HashWindow.Push | libdraw/writeimage.c:148-153 | with the slot in front of its chain the table is an exact index again, of one more position |
| HashWindow.ChainsAreExact | libdraw/writeimage.c:96-117 | walking a chain meets exactly the positions in the ring with that hash, latest first, so each is on one chain; the oldest is last on its chain |
| HashWindow.PrevUndoesNext | libdraw/writeimage.c:148-152 | `prev` is the inverse of `next` |
| HashWindow.Window.Insert | libdraw/writeimage.c:145-157 | inserting a position adds it to the index and drops the one 1024 back |
| HashWindow.Window.Reset | libdraw/writeimage.c:78-80 | a block starts with an empty window |
| HashWindow.CompareAt | libdraw/writeimage.c:97-109 | comparing backwards first finds the length of the match, or that it is no longer than the best |
| HashWindow.Window.Search | libdraw/writeimage.c:94-117 | the search returns the longest match on the chain, the latest of several |
| WriteImage.SearchIsExact | libdraw/writeimage.c:83-117 | it is the longest match in the whole window: three equal bytes are on the same chain |
| WriteImage.ExtendMatch | libdraw/writeimage.c:130-144 | after a match the code decodes to that much more of the image |
| WriteImage.ExtendDump | libdraw/writeimage.c:118-137 | after a dump the code decodes to that many more bytes of the image |
| WriteImage.FlushDump | libdraw/writeimage.c:131-138 | a dump is its length and its bytes, or is not written if it does not fit |
| WriteImage.CompressLine | libdraw/writeimage.c:87-169 | a line is committed as code that decodes to it, in at most bpl + ceil(bpl/128) bytes, or it does not fit |
| WriteImage.CompressBlock | libdraw/writeimage.c:78-174 | a block holds whole lines only; the code of a line that did not fit is dropped, and at least one line is committed if the block has room for the longest |
| WriteImage.WrittenDecodes | libdraw/writeimage.c:77-179 | blocks that stand for consecutive lines decode, each from an empty window, to the image |
| WriteImage.Compress | libdraw/writeimage.c:73-179 | for every image, line width and block size: what is written decodes to the image unless a line may not fit, takes the longest match at every position where there is one of three bytes, and has no code across the end of a line |
| WriteImage.LinesLoad | libdraw/writeimage.c:87-169 | the code of a block is made of its lines: no code crosses the end of a line |
| WriteImage.BlocksAre | libdraw/writeimage.c:171-179 | the headers name rising rows; each block is neither empty nor too large, and by itself decodes, from an empty window, to the rows from the one that the header before names to the one that its own names |
| WriteImage.WriteImage | libdraw/writeimage.c:73-179 | with the block size of `_compblocksize` the error exit is never taken, the loops end, the blocks decode to exactly the image, every block is as above, and the last header names the row behind the last |
| LoadImage.RingPut | libmemdraw/cload.c:40-43 | the window of 1024 bytes holds the last bytes that were loaded, wherever it begins |
| LoadImage.LoadMatch | libmemdraw/cload.c:49-63 | a match is copied out of the ring, across its end too, as `Copy` says, or refused if it crosses the end of the line |
| LoadImage.LoadCode | libmemdraw/cload.c:28-64 | a code is refused exactly if it is not all there or crosses the end of the line, and loads what it decodes to |
| LoadImage.LoadLines | libmemdraw/cload.c:16-66 | the number of bytes of code for the lines, or -1, is that of `Loaded`, and the lines hold what the code decodes to behind whatever was in the window; nothing between or around the lines changes |
| LoadImage.Memimage.CloadMemImage | libmemdraw/cload.c:5-67 | the same for some lines of an image, and -1 without a change if it does not have them |
| LoadImage.CreadMemImage | libmemdraw/cread.c:59-94 | an image comes back exactly if the headers of the blocks are good, and it is the image that was written, complemented if the file is of the old format |
| LoadImage.WriteThenRead | libmemdraw/cread.c:59-94 | every image is the same after it has been written and read; but it can be read if and only if it has some width or no height |
| Bio.Biobuf.Boffset | libbio/boffset.c:4-25 | the position of the next byte |
| Bio.Biobuf.Bgetc | libbio/bgetc.c:4-41 | the next byte of the file, or Beof at its end or after an error; the window stays good unless it is Beof; at the end of the file `gbuf` goes to the front of the buffer, which harms no seek until the next call |
| Bio.Biobuf.Refill | libbio/bread.c:22-35 | a refill leaves the bytes read as the last of the buffer, whatever the length of the read |
| Bio.Biobuf.Bread | libbio/bread.c:4-47 | the next count bytes of the file, fewer only at its end or after an error, and -1 if and only if the reader is inactive and there are none; the window stays good |
| Bio.Biobuf.Brdline | libbio/brdline.c:4-87 | exactly the bytes through the first delimiter, or nothing is consumed |
| Bio.Biobuf.InBuffer | libbio/bseek.c:26-40 | the fast path is taken exactly for targets in the window, when `icount` wraps into it, and when `icount` becomes -2^31, all in 32-bit arithmetic |
| Bio.Biobuf.Bseek | libbio/bseek.c:4-57 | after a seek the next byte is that of the target, if what the seek trusts of the buffer is good and except exactly when `icount` wraps into the buffered range, and the seek ends 2^32 or a multiple of it away, or when it becomes -2^31, and the window is lost |
| BioRuns.Deliver | libbio/bread.c:15-46 | any mix of Bgetc, Bread and Brdline over any pattern of short reads delivers the bytes of the file in order, nothing lost or repeated, and Boffset counts them |
| BioRuns.Run | libbio/bseek.c:19-56 | any sequence of Bgetc, Bread, Brdline, Bseek and Boffset over any pattern of short and failing reads gives the results of a reader without a buffer as long as no read fails, and where one fails the caller learns of it as the call says: Bgetc by Beof, Bread by the bytes before it or -1, Brdline by no line, after which it goes on; from each state that the buffer can be in, for seeks with a safe displacement that do not go back into a buffer that is only trusted |
| BioRuns.DeadAnswers | libbio/bread.c:22-46 | after an error in Bgetc or Bread every call of the run fails, Bread with -1 |
| BioRuns.SeekTrusted | libbio/bgetc.c:18-38 | a safe seek back into a buffer that is only trusted reports success, and is right if and only if the buffer holds the bytes of the file from there to its end |
| BioRuns.SeekBeforeStart | libbio/bseek.c:46-56 | a safe seek with a good buffer goes to its target if and only if that is not before the start of the file; otherwise Boffset says -1 and the descriptor has not moved |
| BioRuns.NoMistake | libbio/bseek.c:30-39 | a safe displacement is never mistaken, whatever the buffer holds |
| BioRuns.SafeIsExact | libbio/bseek.c:30-39 | a displacement is safe if and only if no fill of the buffer makes the seek mistake it |
| BioRuns.SeekTooFarBack | libbio/bseek.c:30-39 | a displacement of 2^32 back is mistaken: the seek reports success and stays where it is |
| BioRuns.SeekLosesWindow | libbio/bseek.c:30-39 | a displacement of 2^31 back, which is an int, is mistaken on every file: the seek reports success and the window is lost |
| BioRuns.SeekAfterTwoEnds | libbio/bgetc.c:18-38 | to the end of the file, two Bgetc, and back to its start: the seek reports success, and the next byte is whatever was in the buffer |
| CleanName.PathIsCanonical | lib9/cleanname.c:16-22 | the stack of a path has no empty component and no `.`, `..` only at its beginning, and none when rooted |
| CleanName.ReadBack | lib9/cleanname.c:23-54 | reading the spelling of such a stack gives the stack back |
| CleanName.Idempotent | lib9/cleanname.c:7-62 | cleaning twice is cleaning once |
| CleanName.NoLonger | lib9/cleanname.c:7-62 | the result is no longer than the name, or than one character |
| CleanName.NoNewDevice | lib9/cleanname.c:55-60 | the result begins with `#` only if the name did |
| CleanName.FoldFits | lib9/cleanname.c:16-51 | writing never passes reading, and there is room for the `./` in front when it is needed |
| CleanName.Backtrack | lib9/cleanname.c:33-35 | going back ends at the end of the component before |
| CleanName.DotDotElement | lib9/cleanname.c:31-44 | `..` takes back a component, is written out, or is dropped, as the stack says |
| CleanName.CopyElement | lib9/cleanname.c:45-50 | a real element is copied down behind a slash, and what is unread stays |
| CleanName.CleanNameInPlace | lib9/cleanname.c:7-62 | the string in the buffer becomes the canonical spelling of its component stack |
| CleanText.CleanPieces | lib9/cleanname.c:16-60 | cut at its slashes, a clean name is rooted if the name was, and has exactly the pieces of the name that are neither empty, nor `.`, nor taken back by a `..`, with `.` in front if and only if they would make it a device |
| CleanText.DottedIsNew | lib9/cleanname.c:55-60 | a clean name begins with `./` if and only if the first piece kept begins with `#` and the name did not begin with that piece |
| CleanText.LooksClean | lib9/cleanname.c:16-60 | no piece of a clean name is empty, `.` is the whole name or keeps a device away, and `..` comes only in front, and not at a root |
| Utf8.DecIsEnc | lib9/rune.c:25-72 | bytes that decode without an error are the encoding of the rune they decode to |
| Utf8.EncThenDec | lib9/rune.c:74-116 | the encoding of a character decodes to it, whatever follows |
| Utf8.RoundTrip | lib9/rune.c:25-116 | decoding what was encoded gives the runes back if and only if all of them are Unicode scalar values |
| Utf8.Reencode | lib9/rune.c:25-116 | encoding what was decoded gives the bytes back if and only if none of them was bad |
| Utf8.CharToRune | lib9/rune.c:25-72 | chartorune accepts exactly the byte sequences of the grammar of RFC 3629, section 4, and returns the error rune and 1 for all others |
| Utf8.RuneToChar | lib9/rune.c:74-116 | runetochar writes the encoding of RFC 3629, section 3, and the error rune for surrogates and values out of range |
| Utf8.RuneNLen | lib9/rune.c:128-148 | runenlen is the length of the encoding if and only if no rune is above 0x10FFFF |
| Utf8.FullRune | lib9/rune.c:150-165 | fullrune says whether all bytes announced by the first are there |
| Utf8.EnoughDecides | lib9/rune.c:150-165 | then nothing behind them changes what chartorune decodes |
| Tokenize.TokenShrinks | lib9/tokenize.c:5-41 | a token is no longer than the text it is cut from, and what follows is at a blank or at the end |
| Tokenize.QToken | lib9/tokenize.c:5-41 | the token is left in place as a C string with its quotes taken off, and the rest of the text is still there |
| Tokenize.Tokenize | lib9/tokenize.c:91-106 | the arguments are C strings in the buffer, the first maxargs tokens of the text, all of them intact when it returns |
| Quoting.Accept | lib9/fmtquote.c:56-102 | a character is accepted exactly if it fits together with the quotes it needs, and the counts stay those of the text; when it is not, quotes have been put there exactly if there were some or it is a single quote with three bytes of room |
| Quoting.QuoteSetup | lib9/fmtquote.c:30-104 | as many characters as fit are accepted, all if they fit; the byte count is that of the printed text and never above the limit; it is in quotes exactly if it needs them, if they are wanted, or if a single quote was cut off |
| Quoting.NeedlessQuotes | lib9/fmtquote.c:66-90 | quotes that the text does not need are printed if and only if the first character that needs them is a single quote with exactly three bytes of room |
| Quoting.LoneQuote | lib9/fmtquote.c:66-90 | the string of one single quote with three bytes of room is printed as a pair of quotes, with nothing accepted |
| QuotePrinting.QStrFmt | lib9/fmtquote.c:106-178 | exactly that many bytes are written, the quoted text, and the room is never exceeded |
| QuotePrinting.FmtCpy | lib9/dofmt.c:129-185 | the same without quotes |
| QuotePrinting.Fmt.PutRune | lib9/fmtdef.h:81-98 | a rune is written if it fits before the limit, and nothing otherwise |
| QuotePrinting.QuoteStrFmt | lib9/fmtquote.c:180-218 | the printed text is that of the accepted characters and stays within the buffer |
| QuoteTokens.PrefixReadsBack | lib9/fmtquote.c:30-104 | whatever the limit, what was printed is one token, the accepted characters |
| QuoteTokens.RoundTrip | lib9/tokenize.c:11-40 | tokenizing a list of printed strings gives the list back, with empty strings, blanks and quotes |
| QuoteTokens.AnyGaps | lib9/tokenize.c:5-41 | so does a list with any mix of spaces, tabs, returns and newlines between, before and behind its strings |
| QuoteTokens.PrintAndTokenize | lib9/fmtquote.c:180-218 | printing a list into a buffer with blanks between the strings and tokenizing the buffer gives the list back whenever there is room for it |
| NineP.RoundTrip | lib9/convM2S.c:49-314 | reading what was written gives the message back, nil strings as empty, whatever follows it, if and only if all strings, names and qids are within their limits |
| NineP.FieldTrip | lib9/convS2M.c:213-381 | the same for each kind of field |
| NineP.SizeWraps | lib9/convS2M.c:47-190 | a message of 2^32 bytes gets the size 0 |
| NinePWriter.SizeS2M | lib9/convS2M.c:37-190 | the size is the length of the written message modulo 2^32, and 0 for an unknown kind |
| NinePWriter.PString | lib9/convS2M.c:4-22 | a string is its length cut to 16 bits, and its bytes |
| NinePWriter.PQid | lib9/convS2M.c:24-35 | a qid is 13 bytes |
| NinePWriter.ConvS2M | lib9/convS2M.c:192-385 | exactly the bytes of the message are written and their number returned, or 0 in exactly the cases of an unknown kind, too little room, or too many names or qids |
| NinePMessages.NumIs | lib9/convS2M.c:192-211 | byte i of a number on the wire is n / 256^i modulo 256 |
| NinePMessages.WireIs | lib9/convS2M.c:192-385 | for each of the 27 messages, the bytes are the size, the type, the tag and the named fields in the order of the protocol |
| NinePMessages.WriteMessage | lib9/convS2M.c:192-385 | those bytes are written into the buffer if they fit and there are at most 16 names or qids, and nothing otherwise |
| NinePReader.GString | lib9/convM2S.c:4-22 | the string becomes a C string in place, and no byte outside it is changed |
| NinePReader.GQid | lib9/convM2S.c:24-37 | a qid is read if all of it is there |
| NinePReader.MeansKept | lib9/convM2S.c:16-20 | what has been read stays readable while later strings are moved |
| NinePReader.ConvM2S | lib9/convM2S.c:49-314 | a message is accepted exactly if it parses, every string read is a C string in the buffer, and nothing behind it has changed |
| NinePMessages.WireParses | lib9/convM2S.c:49-314 | a message on the wire, with anything behind it, parses as that message, every field where it belongs, if and only if its strings, names and qids are within their limits |
| NinePMessages.ReadMessage | lib9/convM2S.c:49-314 | the structure and the strings in the buffer hold the message that the bytes parse as |
| NinePMessages.ReadBack | lib9/convM2S.c:49-314 | a message on the wire comes back field by field if and only if it is within its limits |
| NinePBack.ReadThenWritten | lib9/convM2S.c:49-314 | what is accepted is a message of the announced size; written again it is no longer, and if it is as long it is byte for byte what was read |
| FontCache.Font.Probe | libdraw/font.c:43-52 | a character is found exactly if it is live in one of its five slots |
| FontCache.Font.Oldest | libdraw/font.c:54-68 | the slot to give away is the least recently used of the five, the first of several |
| FontCache.Font.LoadChar | libdraw/font.c:276-302 | the slot gets the character and the width of its glyph, and the cache is wiped only if it is not in use; without success the slot is unchanged or empty, unless the device failed after it was written |
| FontCache.Font.FontResize | libdraw/font.c:344-398 | whatever the device does, the cache is empty afterwards |
| FontCache.Font.CacheOne | libdraw/font.c:43-95 | a character in the cache is found; else the batch ends when its five slots are all in use, or all used within 500 ages while the cache can grow; else the least recently used of them is given away if the character can be loaded; a character that the device did not take is found from then on if and only if its slot had been in use and the cache was not wiped |
| FontCache.Font.CacheChars | libdraw/font.c:9-103 | when a batch is complete each slot still holds its character at the current age with the width of a glyph of that character, and the width is the sum of theirs; no slot in use, and none used lately while the cache can grow, has lost its character; a character is passed over only if the font has none or the device failed, and a batch ends early only at one that is not in the cache and can not be brought into it now, or when the cache was wiped |
| FontCache.Font.AgeFont | libdraw/font.c:105-146 | no slot is ever older than the font, and no age needs more than 16 bits |
| FontCache.AgedKeepsOrder | libdraw/font.c:116-124 | renormalisation is division by four, rounded up past it: live slots stay live, their order is kept weakly, and strictly when they are four ages apart |
| FontCache.Font.constructor | libdraw/buildfont.c:27-57 | every slot of a new cache is empty, and the font has age 1 |
| StemLinks.Compare | libfreetype/aflatin.c:974-1014 | one comparison keeps the first best partner of every segment |
| StemLinks.ScoreIs | libfreetype/aflatin.c:992-1000 | the score is the distance plus as often as the overlap goes into the length score |
| StemLinks.ScoreLaws | libfreetype/aflatin.c:995-1000 | of two pairs the nearer one with the longer overlap scores no more, and less if it is strictly nearer |
| StemLinks.FindPartners | libfreetype/aflatin.c:962-1017 | the first pass finds the first best partner of every segment |
| StemLinks.Settle | libfreetype/aflatin.c:1019-1032 | the second pass keeps exactly the mutual links, although it clears links that it reads later |
| StemLinks.LinkSegments | libfreetype/aflatin.c:945-1033 | two segments are linked if and only if each is the first best partner of the other; the serifs are those of the rest |
| StemLinks.Matching | libfreetype/aflatin.c:945-1033 | the links are a matching of opposite directions, and neither side has a better partner |
| StemLinks.SomeStem | libfreetype/aflatin.c:945-1033 | a stem survives if and only if two segments score below 32000 |
| QSort.Pivot | lib9/qsort.c:43-68 | the pivot is one of the three samples, and their median if the answers are those of a total preorder |
| QSort.Partition | lib9/qsort.c:79-99 | for every comparator the elements are the same and the bounds are kept; if the answers depend on the two elements only, nothing before the pivot compares greater and nothing after it less |
| QSort.QSorts | lib9/qsort.c:70-110 | it terminates within its bounds and permutes for every comparator, even one that changes its answers between calls, and sorts if the answers are those of a total preorder |
| QSort.QuickSort | lib9/qsort.c:112-123 | the same for a whole array |
| Adler32.Adler | libfreetype/adler32.c:21-48 | the checksum is that of RFC 1950, for every buffer and starting value |
| Adler32.ClosedForm | libfreetype/adler32.c:21-48 | the low half is one and the sum of the bytes, the high half their number and each byte times how many there are from it on, both modulo 65521 |
| Adler32.Do16 | libfreetype/adler32.c:14-18 | sixteen bytes are added with neither sum leaving 32 bits |
| Adler32.GrowThenReduce | libfreetype/adler32.c:32-46 | reducing once at the end of a chunk is reducing after every byte |
| Adler32.NmaxIsLargest | libfreetype/adler32.c:11-12 | a chunk of n bytes never overflows 32 bits if and only if n is at most 5552 |
| Adler32.Chain | libfreetype/adler32.c:21-48 | checksumming in two calls is checksumming the concatenation |

## Left out

- RWLockRuns.RunsDrain: no fairness is assumed of the spin locks, so nothing is said about runs in which new calls keep coming; the back-off (`osyield`, `osmillisleep`) is left out, and a spinning process is one that can not step.
- RWLock.StepInv: a critical section under a spin lock is one step, because nobody else touches what it protects; weak memory order is not modelled, and every process calls the unlock that matches its lock.
- WriteImage.WriteImage: three bytes must be readable at the start of a block, as the lookahead at lines 83-84 reads them even from an image with shorter lines; reading the image and writing the file are left out.
- BioRuns.Run: a seek before the start of the file and one back into a buffer that is only trusted are not part of a run.
- Bio.Biobuf.Bseek: sums and differences of positions stay within 64 bits, as C leaves their overflow undefined; storing into the int `icount` and negating it wrap around.
- The write side of libbio, Bungetc and Brdstr.
- Quoting.QuoteSetup: strings of valid UTF-8, because the counting pass and the printing pass measure bad bytes differently; Rune strings as input or output, the field width, the nil string and buffers that can be flushed are left out.
- Tokenize.Tokenize: `gettokens` and `etoken` are not part of this model.
- NinePWriter.ConvS2M: messages of less than 2^32 bytes, as a longer one overruns the buffer; pointers are not assumed to wrap around.
- FontCache.Font.CacheChars: the subfonts, their ages and the drawing commands are left out; the string is given as runes, and `left` and `x` of a slot are not kept.
- CleanName.CleanNameInPlace: the buffer has at least two bytes, because the empty name becomes `.`.
- StemLinks.LinkSegments: it starts from the score 32000 and the empty links that `af_latin_hints_compute_segments` sets; the coordinates are taken as they are, and the rest of the autofitter is left out.
- QSort.QuickSort: a comparator that writes to the array is not modelled, nor is the choice between swapping words and bytes or the depth of the recursion.
- LoadImage.CreadMemImage: the header of the file and the digits of the block headers are taken as read; running out of memory is left out; the codes of an old file are made of whole codes, as `_twiddlecompressed` would run past a buffer that ends inside one.
- LoadImage.Memimage.CloadMemImage: rectangles as wide as the image, as `creadmemimage` loads; at least one line high, as the source counts its lines up to the last one.
- `libdraw/cloadimage.c` and `libdraw/creadimage.c`, which carry compressed blocks to the device.
- `lib9/u16.c`, `lib9/u32.c`, `lib9/u64.c`, `lib9/fltfmt.c`, `lib9/charstod.c` and the Unicode tables, which would add other kinds of code rather than harder properties.
