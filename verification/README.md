# fma-common, verified

A Dafny model of the algorithmic core of fma-common, a C++ utility library that carries a date library
(`fma-common/date.h`) and a Python linter (`cpplint/cpplint.py`). Each module follows one component.

| module | component |
|---|---|
| `Calendar`, `Weekdays`, `IsoWeeks` | civil dates, n-th weekday dates and ISO week dates of `date.h` |
| `KeywordScanner` | `scan_keyword` of `date.h` |
| `Integers`, `Sequences`, `Bytes`, `Options` | quotients and remainders, slices, bytes and little-endian words, optional results |
| `KeyTable`, `Blowfish`, `Encryptor` | key table, cipher, padding and envelope of `encrypt.h` |
| `Md5` | the streaming digest of `encrypt.h` |
| `Base64` | the codec of `encrypt.h` |
| `BoundedQueue` | the monitor of `bounded_queue.h` |
| `StripedStream` | the multi-disk streams |
| `Brackets`, `Angles`, `Expressions` | cpplint's search for the other end of a bracketed expression |
| `Preprocessor` | cpplint's nesting stack across `#if` branches |
| `Serializer` | the type-directed reader and writer |
| `BinaryBuffer` | the double-ended byte buffer, over a model of `malloc`, `realloc` and `free` |

Code that only computes is modelled by functions. Code that updates objects, arrays or streams is modelled by
classes and methods, each proved against a function or predicate whose own properties are then proved as lemmas.

## What the proofs say about the code

The properties hold for the code as written, with these exceptions. Each is stated as an exact condition.

- A day count survives `from_days` and `to_days` exactly when its year fits the `short` of `date::year`
  (`Calendar.DayRoundTrip`).
- `%V` and the week-date parser are right on every valid date but 1 and 2 January of year -32767. These belong to ISO
  year -32768, whose predecessor no `short` holds (`IsoWeeks.WeekDateExact`).
- `MD5::Update` takes a `size_t` but hands the size on as 32 bits. Up to 2^61 bytes the counter is right exactly when the
  size is below 2^32, and the exact condition for any size is `Md5.TruncatedCount`. `Md5.MD5.Update` says which bytes
  are read otherwise.
- `MD5::GetDigest` leaves the chaining words at zero, so the next message given to the same object is hashed from zero
  chaining words (`Md5.UseTwice`). Whatever the compression, `GetDigest` is right exactly when the object still has the
  initial chaining words, that is when `GetDigest` was not called on it before (`Md5.DigestRightExactly`; the failing
  case is `Md5.SecondDigestFails`).
- A week date parses to a date that formats to it exactly when the ISO year has that week
  (`IsoWeeks.ParsedWeekDateExact`); the parser itself accepts any week number.
- `Base64::TryDecode` accepts strings that no encoder writes (`Base64.NotStrict`). Encoding gives the string back
  exactly on the strict ones (`Base64.StrictExactly`).
- `PKCS5PaddingLength` looks before the start of the string exactly when its bytes all agree and are too few
  (`Blowfish.LeavesStringExactly`), as on the one byte 8 (`Blowfish.ShortStringLeaves`). `Decrypt` does so exactly on
  cipher texts shorter than a block whose own bytes have that form (`Blowfish.DecryptableExactly`), which a caller can
  see without the key. The source's behaviour is undefined there; the model returns a value of its own.
- `WaitEmpty` shares a condition variable with `Push` and with other callers of `WaitEmpty`. Wakeups are kept as long as
  no caller of `WaitEmpty` waits there beside another thread (`BoundedQueue.NoWakeupIsLost`), and from every state in
  which one does a wakeup can be lost (`BoundedQueue.MixingExactly`). A pusher beside a caller of `WaitEmpty` is one
  such use, which the header excludes (`BoundedQueue.SharedConditionLosesWakeup`). Two callers of `WaitEmpty` are
  another, which it does not exclude: one of them can sleep on at an empty queue although nobody pushed since
  (`BoundedQueue.TwoEmptyWaitersLoseWakeup`).
- `InputMultiDiskStream::Read` ends exactly when the bytes asked for lie inside the file
  (`StripedStream.ReadEndsExactlyInBounds`).
- Reading a set or a map into a variable that is not empty inserts into it. The value read is the value written exactly
  when nothing left over shows (`Serializer.CleanExactly`).
- `BinaryBuffer::DetachBuf` promises a pointer to the content with the address of the block just before it. It delivers
  that exactly for buffers that are not constant. For a constant buffer it returns the address of the copy itself, so
  the stored address comes first where the content should be (`BinaryBuffer.BinaryBuffer.DetachBuf`).

## Model

| member | source | states |
|---|---|---|
| Calendar.IntermediateRanges | fma-common/date.h:3093-3101 | all ranges in the comments of `from_days`: day of era, year of era, day of year, month from March, day and month, for every day count |
| Calendar.ToDaysRanges | fma-common/date.h:2979-2986 | the ranges in the comments of `to_days`: year of era, day of year and day of era, for every date with valid month and day |
| Calendar.YearOfEra | fma-common/date.h:3095-3098 | the quotient of corrected day counts finds the right year of the 400-year era for every day of every year |
| Calendar.CenturySplit | fma-common/date.h:3096 | the same, by century, olympiad and year: what the divisors 1460, 36524 and 146096 are for |
| Calendar.SplitEra | fma-common/date.h:3095-3098 | every day of an era lies in one of its 400 years |
| Calendar.CivilOfToDays | fma-common/date.h:3087-3103 | `from_days` undoes `to_days` on every date with valid month and day, before the year is narrowed |
| Calendar.ToDaysOfCivil | fma-common/date.h:2973-2987 | `to_days` undoes `from_days` on every day count, before the year is narrowed |
| Calendar.NextIsPlusOne | fma-common/date.h:2737-2748 | the successor date, found with `year_month_day_last::day` and `is_leap`, has the next day count and is greater |
| Calendar.OrderAgrees | fma-common/date.h:3032-3039 | the lexicographic `operator<` orders dates as their day counts, and equal counts mean equal dates |
| Calendar.NaiveCount | fma-common/date.h:2973-2987 | n steps of the calendar add n to `to_days` |
| Calendar.EpochIsZero | fma-common/date.h:2986 | 1970-01-01 is day 0 |
| Calendar.ShortWraps | fma-common/date.h:3102 | a year stored in a `short` is in range and differs from the year by a multiple of 2^16 |
| Calendar.CountsFromEpoch | fma-common/date.h:2973-2987 | a number is the day count of a date if and only if so many calendar steps lead from 1970-01-01 to it, or back |
| Calendar.DayBounds | fma-common/date.h:3006-3011 | the year of a date is a valid year if and only if its day count lies between two constants |
| Calendar.DateRoundTrip | fma-common/date.h:3087-3103 | every `ok` date survives `to_days` and `from_days`, narrowing included |
| Calendar.DayRoundTrip | fma-common/date.h:3102 | a day count gives an `ok` date that converts back if and only if it lies between those constants |
| Weekdays.WeekdayFormula | fma-common/date.h:1823-1827 | the formula with 32-bit wraparound is (z + 4) mod 7 for every 32-bit z |
| Weekdays.WeekdayArithmetic | fma-common/date.h:1905-1920 | adding the difference of two weekdays leads from one to the other, and it is the only such number below 7, for negative day numbers too |
| Weekdays.WithinMonth | fma-common/date.h:2737-2748 | days of one month have consecutive counts |
| Weekdays.NthOkMeansInMonth | fma-common/date.h:3262-3271 | `year_month_weekday::ok` holds if and only if the fields are valid, the index positive and the day lies in the month, index 5 included |
| Weekdays.NthRoundTrip | fma-common/date.h:3276-3291 | an `ok` n-th weekday date names a day with that weekday and comes back from it |
| Weekdays.DaysNthRoundTrip | fma-common/date.h:3276-3291 | a 32-bit day count survives the other round trip, through an `ok` form, if and only if its year is valid |
| Weekdays.LastWeekday | fma-common/date.h:3469-3473 | a day is the last weekday of that name in a month if and only if it is that weekday, lies in the month, and the same weekday a week later does not |
| IsoWeeks.FirstThursday | fma-common/date.h:5348-5349 | the Monday after the last Thursday week of December starts the week of the first Thursday of the next year |
| IsoWeeks.WeekStartDecides | fma-common/date.h:5350-5351 | a day is on or after that Monday if and only if the Thursday of its week is in that year or later |
| IsoWeeks.FormatGIsIsoYear | fma-common/date.h:5346-5351 | %G is the year of the Thursday of the week, on every valid date |
| IsoWeeks.VCountsThursdays | fma-common/date.h:5804-5818 | %V is the number of the Thursday of the week among those of the ISO year, between 1 and 53 |
| IsoWeeks.WeekDateRoundTrip | fma-common/date.h:7712-7730 | the parser's formula leads from %G, %V and the weekday back to the date |
| IsoWeeks.WeekDateExact | fma-common/date.h:5804-5818 | over all valid dates: %V is in range and the week date parses back if and only if the day is not 1 or 2 January of year -32767 |
| IsoWeeks.WholeWeeks | fma-common/date.h:5815-5818 | consecutive week-1 Mondays are 52 or 53 whole weeks apart |
| IsoWeeks.WeeksAreValid | fma-common/date.h:5809-5818 | every day of every week of a valid ISO year is a valid date of that ISO year |
| IsoWeeks.ParsedWeekDateExact | fma-common/date.h:7712-7730 | for every valid year, every week number and every weekday, what is parsed is a valid date that formats back to the three if and only if the number is between 1 and the number of weeks of that ISO year |
| KeywordScanner.CountUpdate | fma-common/date.h:4994-5002 | changing a status moves one unit between the counters |
| KeywordScanner.Recount | fma-common/date.h:4994-5002 | each of the three kinds of status change keeps the counters equal to the number of statuses of each kind |
| KeywordScanner.TwoInPlay | fma-common/date.h:5013 | two keywords in play make the counters add up to at least two |
| KeywordScanner.NothingStale | fma-common/date.h:5010-5024 | skipping the reset when the counters add up to at most one leaves no match of an earlier length |
| KeywordScanner.InitStatus | fma-common/date.h:4951-4965 | before the first character only empty keywords match, and the counters agree |
| KeywordScanner.Compare | fma-common/date.h:4984-5005 | after the first inner loop a character is consumed if and only if the longer input starts some keyword |
| KeywordScanner.DropShorter | fma-common/date.h:5015-5023 | exactly the matches that ended earlier are dropped |
| KeywordScanner.TestNext | fma-common/date.h:4976-5025 | one turn keeps every status exact for the consumed input, and when it consumes nothing no keyword might match |
| KeywordScanner.Advance | fma-common/date.h:5007-5025 | statuses without stale matches are those of the longer input |
| KeywordScanner.LoopEnd | fma-common/date.h:4967-4974 | however the loop ends, the consumed prefix is the longest one that starts a keyword and the matches are the keywords equal to it |
| KeywordScanner.FirstMatch | fma-common/date.h:5029-5031 | the first keyword whose status says match |
| KeywordScanner.InputStream.Peek | fma-common/date.h:4970-4974 | the next character, or nothing at the end, which sets eofbit, and on a stream that is not good, which sets failbit |
| KeywordScanner.OnlyEmptyMatch | fma-common/date.h:4951-4965 | before anything is consumed exactly the empty keywords match and the others might |
| KeywordScanner.ScanKeyword | fma-common/date.h:4935-5035 | on a good stream: consumes the longest prefix that, ignoring case, starts some keyword; returns the first keyword equal to it; failbit if and only if there is none; eofbit if and only if the input ended while a longer keyword was possible. On any other stream: consumes nothing, returns the first empty keyword, and the stream ends failed if and only if it was, or there is no empty keyword, or one that is not empty |
| KeyTable.SameDivisors | fma-common/encrypt.h:198-201 | a remainder step keeps the common divisors |
| KeyTable.GCD | fma-common/encrypt.h:193-204 | terminates with the common divisor that every common divisor divides, in either order of arguments and with `larger` 0 |
| Bytes.WordValue | fma-common/encrypt.h:24-41 | the value of the word in four bytes, lowest byte first |
| Bytes.LittleEndianAt | fma-common/binary_read_write_helper.h:194-197 | byte i of a number in memory is its digit i to the base 256 |
| KeyTable.WordPeriod | fma-common/encrypt.h:273-283 | the bytes (4i + k) mod length repeat in i with period length / gcd(length, 4) |
| KeyTable.CyclicBytes | fma-common/encrypt.h:279-282 | word i of the endless key is made of key bytes 4i to 4i + 3, cyclically, the first one highest |
| KeyTable.MakeTable | fma-common/encrypt.h:273-290 | the short table at i modulo its length is word i of the endlessly repeated key, for every non-empty key and every i |
| Blowfish.UndoRound | fma-common/encrypt.h:313-337 | a decrypting round with the same key undoes an encrypting round up to whitening |
| Blowfish.WalkBack | fma-common/encrypt.h:326-331 | the decrypting loop passes through the states of the encrypting loop in reverse |
| Blowfish.DecryptInvertsEncrypt | fma-common/encrypt.h:313-337 | for any P and S arrays, decrypting a block undoes encrypting it |
| Blowfish.EncryptInvertsDecrypt | fma-common/encrypt.h:313-337 | and encrypting undoes decrypting |
| Blowfish.FeistelChain | fma-common/encrypt.h:313-324 | the classical form: a chain of words, each the last but one mixed with what the S-boxes make of the last and with the next key word, whose end is the encrypted block |
| Blowfish.WordOperations | fma-common/encrypt.h:315-316 | mixing is exclusive or, adding wraps around |
| Blowfish.Blowfish.EncryptBlock | fma-common/encrypt.h:313-324 | the loop computes the block function the round trips are about |
| Blowfish.Blowfish.DecryptBlock | fma-common/encrypt.h:326-337 | likewise |
| Blowfish.FeistelReadsBytes | fma-common/encrypt.h:339-349 | the word with bytes a, b, c, d from the highest reads the four S-boxes at a, b, c and d, adds the first two entries, mixes in the third and adds the fourth |
| Blowfish.Blowfish.FeistelOf | fma-common/encrypt.h:339-349 | four reads through the union, added, mixed and added in the source's order, for the bytes of the word from the highest |
| Blowfish.Blowfish.constructor | fma-common/encrypt.h:223 | the tables after construction are those of the schedule for the key |
| Blowfish.Blowfish.SetKey | fma-common/encrypt.h:265-311 | the schedule run with the short table gives the P and S arrays that the endlessly repeated key defines, filled pair by pair in order |
| Blowfish.PairOfP | fma-common/encrypt.h:298-303 | the schedule as a law about the final P: each pair is, left half first, the encryption of the pair before it, or of zeros, under the part already final, the keyed rest and the initial S-boxes |
| Blowfish.KeyedAt | fma-common/encrypt.h:287-290 | a keyed entry is the initial one mixed with its word of the endless key |
| Blowfish.PairOfS | fma-common/encrypt.h:305-310 | the same law for the 512 pairs of the S-boxes, under the final P |
| Blowfish.Blowfish.FillPary | fma-common/encrypt.h:298-303 | fills P while encrypting with the P being filled |
| Blowfish.Blowfish.FillSbox | fma-common/encrypt.h:305-310 | then the S-boxes in place |
| Blowfish.MapBlocksInverse | fma-common/encrypt.h:239-257 | over a string of any length, the block loops of Encrypt and Decrypt undo each other in both orders |
| Blowfish.BlockAt | fma-common/encrypt.h:239-257 | at every whole block stands its encryption, or in Decrypt its decryption |
| Blowfish.BlockLayout | fma-common/encrypt.h:240-242 | the left half of a block is its first four bytes |
| Blowfish.Blowfish.TransformBlocks | fma-common/encrypt.h:239-257 | the in-place loop changes every whole block and leaves a shorter rest |
| Blowfish.LeavesStringExactly | fma-common/encrypt.h:207-214 | some turn of the comparison loop begins outside the string if and only if its bytes all agree and are fewer than the last one says |
| Blowfish.ShortStringLeaves | fma-common/encrypt.h:210-214 | the one byte 8 is such a string |
| Blowfish.PKCS5PaddingLength | fma-common/encrypt.h:206-219 | the length of the padding at the end when all its bytes agree, else 0, and nothing if and only if a turn begins outside the string |
| Blowfish.PaddingLengthMeans | fma-common/encrypt.h:206-219 | there is padding of n bytes if and only if n is from 1 to 8 and the last n bytes all hold n |
| Blowfish.WholeBlocksReadable | fma-common/encrypt.h:210-214 | on the empty string and on eight bytes or more the loop stays inside |
| Blowfish.DecryptableExactly | fma-common/encrypt.h:249-260 | the deciphered text keeps the loop inside if and only if the cipher text has a block or, shorter than one, does so itself |
| Blowfish.PaddingFound | fma-common/encrypt.h:228-237 | the padding of section 6.1.1 of RFC 8018, from one to eight bytes up to whole blocks, is found again, and only it |
| Blowfish.StringRoundTrip | fma-common/encrypt.h:225-262 | for any P and S arrays and every string, decrypting its encryption gives the string |
| Blowfish.Blowfish.Encrypt | fma-common/encrypt.h:225-247 | pads and encrypts as the round trip has it |
| Blowfish.Blowfish.Decrypt | fma-common/encrypt.h:249-262 | decrypts and removes the padding found, on every cipher text but those that `DecryptableExactly` excludes, decided on the cipher text alone |
| Encryptor.SealedLayout | fma-common/encrypt.h:368-373 | the bytes 18 07 02 20, the length in eight bytes lowest first, the text |
| Encryptor.OpensExactlySealed | fma-common/encrypt.h:378-386 | a deciphered string is accepted with text x if and only if it begins with the magic number, the length of x and x |
| Encryptor.Encryptor.constructor | fma-common/encrypt.h:365 | the engine is keyed with the given key |
| Encryptor.Encryptor.Encrypt | fma-common/encrypt.h:367-375 | what is returned deciphers and opens to the text, for every text a `size_t` can measure |
| Encryptor.Encryptor.Decrypt | fma-common/encrypt.h:377-387 | for every cipher text that keeps the padding loop inside: returns x if and only if it deciphers to a sealed x, possibly followed by more bytes; a value of its own if and only if the loop leaves the string |
| Encryptor.EnvelopeRoundTrip | fma-common/encrypt.h:367-387 | for every non-empty key and all tables, `Decrypt(Encrypt(s))` is s |
| Md5.FoldAppend | fma-common/encrypt.h:480-486 | compressing block by block can be continued behind any whole number of blocks |
| Md5.FoldBlock | fma-common/encrypt.h:465-478 | completing the unfinished block is one compression of tail and new bytes |
| Md5.FoldShort | fma-common/encrypt.h:469-472 | bytes that do not complete it only lengthen the tail |
| Md5.CounterCarry | fma-common/encrypt.h:459-462 | the comparison used as carry and the shift by 29 together add 8 · len to the two-word counter modulo 2^64 |
| Md5.CountsStep | fma-common/encrypt.h:459-462 | so the counter stays 8 times the length, modulo 2^64 |
| Md5.CounterOffset | fma-common/encrypt.h:463 | the number of buffered bytes comes back from the low word alone |
| Md5.TruncatedCount | fma-common/encrypt.h:646-648 | with the size cast to 32 bits the counter still counts every byte if and only if the size modulo 2^61 is below 2^32; below 2^61 bytes, if and only if the size is below 2^32 |
| Md5.PaddedLayout | fma-common/encrypt.h:499-522 | the padded message: the message, 0x80, as few zeros as fill up to whole blocks, the length in bits modulo 2^64 lowest byte first |
| Md5.PaddedBlocks | fma-common/encrypt.h:499-523 | one or two last blocks make the fold over the message padded as in sections 3.1 and 3.2 of RFC 1321 |
| Md5.MD5.MD5Init | fma-common/encrypt.h:442-450 | the context has read nothing |
| Md5.MD5.Salted | fma-common/encrypt.h:639-644 | the context has read the salt |
| Md5.MD5.CountBits | fma-common/encrypt.h:459-463 | the counter counts the new bytes too; the offset in the block is returned |
| Md5.MD5.Absorb | fma-common/encrypt.h:463-488 | the chaining state is the fold over all whole blocks and the buffer holds the tail |
| Md5.MD5.FillBlock | fma-common/encrypt.h:473-475 | the block is completed and compressed |
| Md5.MD5.AbsorbWhole | fma-common/encrypt.h:480-488 | whole blocks are compressed, the rest is kept |
| Md5.MD5.MD5Update | fma-common/encrypt.h:456-489 | a context that has read m has, after it, read m followed by the data: fold, tail and counter |
| Md5.MD5.PadBlock | fma-common/encrypt.h:499-518 | marker and zeros, with a full block in between when fewer than 8 bytes are free |
| Md5.MD5.MD5Final | fma-common/encrypt.h:495-527 | returns the digest of everything read, hashed in one go, and wipes the context, which has then read nothing, from chaining words of zero |
| Md5.MD5.Update | fma-common/encrypt.h:646-648 | reads the low 32 bits' worth of the data: all of it below 2^32 bytes, and not all of it above while the counter can tell |
| Md5.MD5.GetDigest | fma-common/encrypt.h:650-654 | the one-shot digest of everything read since the object was made, from zero chaining words when it was used before |
| Md5.KeptDigest | fma-common/encrypt.h:442-446 | with the compression that returns its chaining words, the digest of every message is the sixteen bytes of the initial words, lowest first: 01 23 45 67 89 ab cd ef fe dc ba 98 76 54 32 10 |
| Md5.ShownDigest | fma-common/encrypt.h:503-525 | with the compression that returns the first bytes of its block, the digest of a short message is the message, the marker 0x80 and zeros |
| Md5.UseTwice | fma-common/encrypt.h:526-654 | the first digest of an object is right, the second message is hashed from zero chaining words |
| Md5.DigestRightExactly | fma-common/encrypt.h:650-654 | on every message, the digest from given chaining words is that of the message for every compression if and only if the words are the initial ones, which `MD5Init` sets, Update keeps and GetDigest gives up |
| Md5.SecondDigestFails | fma-common/encrypt.h:526 | the second digest of an object is wrong on every message under the compression that returns its chaining words |
| Md5.DigestsDiffer | fma-common/encrypt.h:526 | under a compression that is injective in the chaining words, different chaining words give different digests of every message; the hypothesis is not shown of `MD5Transform` |
| Md5.Encrypt | fma-common/encrypt.h:626-637 | the one-shot digest of text followed by salt |
| Md5.DigestOfChunks | fma-common/encrypt.h:639-654 | however a message is split into Updates below 2^32 bytes, the digest is that of the whole message |
| Base64.Alphabet | fma-common/encrypt.h:660-663 | the 64 letters: A to Z, a to z, 0 to 9, + and / |
| Base64.GroupDigits | fma-common/encrypt.h:670-673 | three bytes are one number of 24 bits, written with four digits of six bits from the highest |
| Base64.GroupAt | fma-common/encrypt.h:666-674 | letters 4k to 4k + 3 spell bytes 3k to 3k + 2 |
| Base64.TailAt | fma-common/encrypt.h:676-688 | one byte left over gives two letters and two padding characters, two give three and one |
| Base64.DigitsOfGroup | fma-common/encrypt.h:731-733 | four letters are read as one number of 24 bits |
| Base64.DecodedGroupAt | fma-common/encrypt.h:721-734 | letters 4k to 4k + 3 give bytes 3k to 3k + 2 |
| Base64.DecodedPadding | fma-common/encrypt.h:717-735 | on every legal text, as many bytes are dropped as padding characters stand at the end, at most two |
| Base64.EncodedLength | fma-common/encrypt.h:664-665 | the length is 4 · ceil(s / 3) |
| Base64.GroupsRoundTrip | fma-common/encrypt.h:666-734 | decoding all groups gives the bytes, zero bits where the last group was short, and the number of padding characters |
| Base64.RoundTrip | fma-common/encrypt.h:659-737 | decoding an encoding succeeds with the same bytes, for full groups and both kinds of tail |
| Base64.NotStrict | fma-common/encrypt.h:699 | two strings decode to the same byte |
| Base64.EncodedStrict | fma-common/encrypt.h:659-690 | encodings have padding only at the very end and no stray bits before it |
| Base64.StrictRoundTrip | fma-common/encrypt.h:694-737 | every strict string decodes, and encoding the result gives the string |
| Base64.StrictExactly | fma-common/encrypt.h:694-737 | a string is strict if and only if it decodes to bytes whose encoding it is |
| Base64.Encode | fma-common/encrypt.h:659-690 | the loop over an array prefilled with padding gives the encoding |
| Base64.PutGroups | fma-common/encrypt.h:666-674 | the full groups are written and the padding behind them is untouched |
| Base64.PutTail | fma-common/encrypt.h:676-688 | the tail of one or two bytes over the padding |
| Base64.TryDecode | fma-common/encrypt.h:694-737 | succeeds if and only if the length is a multiple of 4 and every character legal |
| Base64.DecodeLoop | fma-common/encrypt.h:721-734 | the disjunction of four table values finds an illegal character if and only if there is one |
| BoundedQueue.SafeStep | fma-common/bounded_queue.h:141-256 | every step of every thread keeps the safety invariant; after EndQueue the contents stay and every call returns false |
| BoundedQueue.RunsAreSafe | fma-common/bounded_queue.h:141-256 | in all runs: length within capacity; accepted elements are those popped plus those queued; with only PopFront the popped order is a prefix of the accepted order; no thread sleeps after EndQueue |
| BoundedQueue.CallLaw | fma-common/bounded_queue.h:141-256 | for every call, when it blocks, when it is refused, and what a successful one does: Push adds at the back, PopFront takes the front, PopBack takes the back, WaitEmpty returns at an empty queue |
| BoundedQueue.StackKeeps | fma-common/bounded_queue.h:249-250 | while nobody pops from the front, what lies below the lowest level reached stays in place |
| BoundedQueue.LastInFirstOut | fma-common/bounded_queue.h:188-250 | then the queue is a stack: the pop that first brings it back to its length before a push returns the element of that push |
| BoundedQueue.StepKeepsPoppers | fma-common/bounded_queue.h:239-254 | every step, spurious wakeups included, keeps the elements no more than the awake poppers about to look for them, while one sleeps |
| BoundedQueue.StepKeepsPushers | fma-common/bounded_queue.h:143-150 | every step between states in which no caller of WaitEmpty waits beside another thread keeps the free slots no more than the awake pushers, while one sleeps, and keeps a sleeping WaitEmpty at a queue that is not empty |
| BoundedQueue.NoWakeupIsLost | fma-common/bounded_queue.h:141-256 | so in every state of every run: for poppers always, for pushers and WaitEmpty as long as no caller of WaitEmpty has waited beside another thread |
| BoundedQueue.NoDeadlock | fma-common/bounded_queue.h:141-256 | under the same condition, when no waiter is awake every sleeper has to wait, and poppers never sleep beside pushers or WaitEmpty |
| BoundedQueue.SoloWaiterIsWoken | fma-common/bounded_queue.h:223-229 | while at most one thread at a time has waited on `cv_ok_to_push_` so far, a sleeper there still has a reason to |
| BoundedQueue.Settle | fma-common/bounded_queue.h:143-145 | waiters that have to wait can all fall asleep again |
| BoundedQueue.Drain | fma-common/bounded_queue.h:239-254 | the queue can be emptied with every notification going to one caller of WaitEmpty |
| BoundedQueue.MixingLosesWakeup | fma-common/bounded_queue.h:215-229 | from every reachable live state in which a caller of WaitEmpty waits beside another thread, the run can go on to a state in which nobody is awake and some sleeper need not wait, without a further thread waiting there |
| BoundedQueue.MixingExactly | fma-common/bounded_queue.h:215-229 | a run that was not mixed before can so lose a wakeup if and only if it is mixed now |
| BoundedQueue.SharedConditionLosesWakeup | fma-common/bounded_queue.h:215-229 | a run in which a pusher sleeps at an empty queue with nobody awake, because WaitEmpty took its notification |
| BoundedQueue.TwoEmptyWaitersLoseWakeup | fma-common/bounded_queue.h:215-229 | a run without a Push after the first waiter in which one of two callers of WaitEmpty sleeps on at an empty queue |
| BoundedQueue.BoundedQueue.constructor | fma-common/bounded_queue.h:112-113 | the initial state of the runs |
| BoundedQueue.BoundedQueue.NotifyOneOn | fma-common/bounded_queue.h:150 | wakes one sleeper of that condition if there is one, no matter which |
| BoundedQueue.BoundedQueue.PushSection | fma-common/bounded_queue.h:141-152 | what Push does between two releases of the mutex is a step of the runs |
| BoundedQueue.BoundedQueue.PopSection | fma-common/bounded_queue.h:237-256 | likewise for PopFront and PopBack, each from its own end by `CallLaw`; it returns the element recorded as popped |
| BoundedQueue.BoundedQueue.WaitEmptySection | fma-common/bounded_queue.h:223-229 | likewise |
| BoundedQueue.BoundedQueue.EndQueue | fma-common/bounded_queue.h:207-212 | sets the kill switch and wakes everybody |
| StripedStream.AppendPart | fma-common/multi_disk_stream.h:442-447 | bytes that fit the current chunk extend the part that owns it and no other |
| StripedStream.AppendStriped | fma-common/multi_disk_stream.h:442-447 | the striped form of the longer file is the old one with that part extended |
| StripedStream.OutputMultiDiskStream.constructor | fma-common/multi_disk_stream.h:341-396 | a new file holds nothing |
| StripedStream.OutputMultiDiskStream.Write | fma-common/multi_disk_stream.h:438-449 | if the parts hold a flat file, they then hold it with the buffer appended: part p has the chunks k with k mod n = p in order |
| StripedStream.SeekOffsetIsLength | fma-common/multi_disk_stream.h:194-203 | the offset computed for a part is the number of earlier logical bytes stored in it |
| StripedStream.PrefixPart | fma-common/multi_disk_stream.h:194-203 | what a part stores of a prefix is a prefix of what it stores |
| StripedStream.TotalSize | fma-common/multi_disk_stream.h:97 | the part sizes add up to the size of the flat file |
| StripedStream.ByteAt | fma-common/multi_disk_stream.h:442-446 | the layout in one formula: byte b of chunk k, chunk c of round r, is byte b of chunk r of part c |
| StripedStream.PartReadGives | fma-common/multi_disk_stream.h:127-130 | from consistent cursors one read of a part returns the next logical bytes |
| StripedStream.TurnDelivers | fma-common/multi_disk_stream.h:126-138 | a turn keeps the cursors consistent, never reports corruption and makes progress if and only if bytes are left |
| StripedStream.ReadEndsExactlyInBounds | fma-common/multi_disk_stream.h:126-138 | the loop ends if and only if offset plus size is at most the file size |
| StripedStream.InputMultiDiskStream.constructor | fma-common/multi_disk_stream.h:82-100 | opened on the parts of a flat file, cursors consistent, size the sum |
| StripedStream.InputMultiDiskStream.Seek | fma-common/multi_disk_stream.h:190-210 | accepts exactly the offsets up to the size and makes every cursor consistent with the new one |
| StripedStream.InputMultiDiskStream.Read | fma-common/multi_disk_stream.h:124-140 | an in-bounds read terminates, returns the flat file's bytes and leaves the cursors consistent for the next Seek or Read |
| Brackets.ForwardSkips | cpplint/cpplint.py:2029-2063 | plain matching crosses a balanced stretch with its stack unchanged |
| Brackets.BackwardSkips | cpplint/cpplint.py:2155-2197 | likewise to the left |
| Brackets.FirstPop | cpplint/cpplint.py:2048-2062 | a successful scan crosses a balanced stretch to the bracket that closes the top of its stack |
| Brackets.LastPop | cpplint/cpplint.py:2183-2197 | likewise to the left |
| Brackets.ForwardFindsCloser | cpplint/cpplint.py:2029-2065 | from an opener, plain matching finds a position if and only if a balanced stretch and a bracket of the same kind end there |
| Brackets.BackwardFindsOpener | cpplint/cpplint.py:2154-2200 | from a closer, likewise |
| Angles.NestedSkips | cpplint/cpplint.py:2031-2080 | an argument list, in which brackets and angle brackets nest, leaves a stack of angle brackets as it was |
| Angles.FirstClosed | cpplint/cpplint.py:2066-2080 | a successful search crosses an argument list to the angle bracket that closes the top of its stack |
| Angles.FindsAngleCloser | cpplint/cpplint.py:2029-2091 | from an angle bracket the machine finds a position if and only if an argument list ends there with its closing angle bracket |
| Angles.BackNestedSkips | cpplint/cpplint.py:2157-2200 | an argument list leaves the stack as it was, right to left |
| Angles.FindsAngleOpener | cpplint/cpplint.py:2154-2212 | from a closing angle bracket, likewise to the left |
| Expressions.EndsInOperatorMeans | cpplint/cpplint.py:2042 | the regular expression as written: a word boundary, `operator`, spaces, the end |
| Expressions.ForwardCharAgrees | cpplint/cpplint.py:2031-2088 | whatever '<', '>' and ';' do to the stack, its plain brackets change as in plain matching |
| Expressions.BackwardCharAgrees | cpplint/cpplint.py:2157-2208 | likewise to the left |
| Expressions.SkippedIsFree | cpplint/cpplint.py:2164-2175 | the character skipped with '>' or '<' is never a bracket |
| Expressions.ForwardLineAgrees | cpplint/cpplint.py:2016-2091 | scanning a line is plain matching over its stretch of the joined text |
| Expressions.BackwardLineAgrees | cpplint/cpplint.py:2138-2212 | likewise to the left |
| Expressions.ForwardLineMarks | cpplint/cpplint.py:2029-2091 | scanning a line is running the angle machine over the line with only those '<' and '>' that count: not in "->", not after `operator`, and the second half of "<<" apart |
| Expressions.BackwardLineMarks | cpplint/cpplint.py:2154-2212 | likewise to the left, where both halves of "<<" and the '>' of " >= " do not count |
| Expressions.FindEndOfExpressionInLine | cpplint/cpplint.py:2016-2091 | the loop computes the line scan, for every start, line and stack; `ForwardLineAgrees` and `ForwardLineMarks` say what that finds |
| Expressions.FindStartOfExpressionInLine | cpplint/cpplint.py:2138-2212 | likewise, with `BackwardLineAgrees` and `BackwardLineMarks` |
| Expressions.DropAngles | cpplint/cpplint.py:2053-2054 | removes all pending angle brackets from the top |
| Expressions.CloseExpression | cpplint/cpplint.py:2094-2135 | for every list of lines and every opener ( [ {: the position just past its closer over the joined lines, or (number of lines, -1) if and only if nothing closes it; the same from every '<' that counts, with the angle bracket that closes it; always (number of lines, -1) from anything else but a '<' |
| Expressions.ReverseCloseExpression | cpplint/cpplint.py:2215-2250 | for every closer: the position of the bracket it closes, or (0, -1) if and only if it closes nothing; the same from every '>' that counts |
| Expressions.ClosesOneToOne | cpplint/cpplint.py:2094-2250 | a bracket closes at most one bracket and is closed by at most one |
| Expressions.PositionsAreUnique | cpplint/cpplint.py:2126-2132 | line and column are determined by the position in the joined text |
| Expressions.CloseThenReverse | cpplint/cpplint.py:2094-2250 | searching back from the closer found leads to the opener searched from, whenever there is a closer |
| Preprocessor.BranchCollapses | cpplint/cpplint.py:3060-3093 | a kept directive does the same after deleted branches as without them; a deleted line changes nothing that is kept |
| Preprocessor.PrunedRun | cpplint/cpplint.py:3039-3118 | for every file, line classification and per-line update: the file without its later branches reaches the state before the first #else still open |
| Preprocessor.BranchesDoNotMatter | cpplint/cpplint.py:3049-3056 | when every #if that saw an #else is closed, the nesting stack is that of the file without everything from the first #else or #elif up to its #endif |
| Preprocessor.DeletedUpToEndif | cpplint/cpplint.py:3053-3055 | the deleted lines are all those from the #else until the #if is closed |
| Preprocessor.StackGoesOn | cpplint/cpplint.py:3060-3093 | on ordinary lines, #if, the #endif of an #if without #else and unmatched directives, Update starts from the stack of the line before |
| Preprocessor.ElseRestores | cpplint/cpplint.py:3064-3075 | on every #else and #elif, Update starts again from the stack before the #if, whatever the lines in between did |
| Preprocessor.EndifRestores | cpplint/cpplint.py:3079-3090 | on the #endif of an #if with #else, Update goes on from the stack at the first #else |
| Preprocessor.NestingState.constructor | cpplint/cpplint.py:2923-2929 | the state of the empty file |
| Preprocessor.NestingState.UpdatePreprocessor | cpplint/cpplint.py:3039-3093 | the effect of a directive on both stacks, which the three laws above describe over whole files |
| Preprocessor.NestingState.Update | cpplint/cpplint.py:3096-3118 | after every line the state is that of the lines read so far, and collapses to that of the pruned lines |
| Serializer.CleanExactly | fma-common/binary_read_write_helper.h:454-460 | reading into a used variable gives the value written if and only if its sets and maps hold nothing else, to any depth |
| Serializer.DefaultIsClean | fma-common/binary_read_write_helper.h:384 | a default-constructed variable is such a one |
| Serializer.FreshRead | fma-common/binary_read_write_helper.h:448-462 | what is read into a default-constructed variable is the value |
| Serializer.EncodedLayout | fma-common/binary_read_write_helper.h:281-425 | the first of a pair before the second, the parts of a triple in order, the size in eight bytes before the elements |
| Serializer.EncodedInOrder | fma-common/binary_read_write_helper.h:422-424 | elements one after another in iteration order |
| Serializer.EncodedSomething | fma-common/binary_read_write_helper.h:366-388 | no value is written as zero bytes, so a count of 0 is free to mean failure |
| Serializer.PodLength | fma-common/binary_read_write_helper.h:404-410 | the bytes returned for a vector of plain data are the bytes written |
| Serializer.PodArray | fma-common/binary_read_write_helper.h:404-410 | writing the memory of a vector of plain data writes its elements one after another |
| Serializer.InsertIntoLeftovers | fma-common/binary_read_write_helper.h:459 | inserting into a used map keeps its old entries |
| Serializer.WriteSize | fma-common/binary_read_write_helper.h:407 | the eight bytes of the size |
| Serializer.ReadSize | fma-common/binary_read_write_helper.h:366 | reads that size back |
| Serializer.BinaryWrite | fma-common/binary_read_write_helper.h:281-283 | appends exactly the encoding and returns its length, for every type |
| Serializer.WriteElements | fma-common/binary_read_write_helper.h:477-483 | element by element in enumeration order |
| Serializer.WriteArray | fma-common/binary_read_write_helper.h:404-410 | plain data in one piece, the same bytes |
| Serializer.BinaryRead | fma-common/binary_read_write_helper.h:256-258 | consumes exactly the encoding, whatever follows, and returns its length |
| Serializer.ReadVector | fma-common/binary_read_write_helper.h:364-392 | resizes, then overwrites the elements, by either branch |
| Serializer.ReadArray | fma-common/binary_read_write_helper.h:364-370 | plain data in one piece |
| Serializer.ReadElements | fma-common/binary_read_write_helper.h:381-392 | element by element; the failure return is never taken on well-formed data |
| Serializer.ReadMembers | fma-common/binary_read_write_helper.h:448-462 | inserts the members of a set |
| Serializer.ReadEntries | fma-common/binary_read_write_helper.h:448-462 | inserts the entries of a map |
| Serializer.RoundTrip | fma-common/binary_read_write_helper.h:352-483 | writing and reading give an equal value, the same byte count and exactly the bytes after it, for every type to any depth and every enumeration order |
| BinaryBuffer.Heap.Malloc | fma-common/binary_buffer.h:63 | some vacant block with arbitrary contents, or null |
| BinaryBuffer.Heap.Realloc | fma-common/binary_buffer.h:262 | the block with its first bytes kept, possibly elsewhere, or null |
| BinaryBuffer.Heap.Load | fma-common/binary_buffer.h:193 | the bytes at an address, whichever block they lie in |
| BinaryBuffer.BinaryBuffer.Empty | fma-common/binary_buffer.h:49 | an empty buffer without a block |
| BinaryBuffer.BinaryBuffer.Borrow | fma-common/binary_buffer.h:80-81 | a constant buffer over the caller's bytes, which may start anywhere in a block |
| BinaryBuffer.BinaryBuffer.Sized | fma-common/binary_buffer.h:90-91 | an empty buffer with a block of its own |
| BinaryBuffer.BinaryBuffer.InitOstream | fma-common/binary_buffer.h:56-68 | an empty buffer in the middle of 128 bytes |
| BinaryBuffer.BinaryBuffer.Grow | fma-common/binary_buffer.h:262-265 | reallocation keeps the content |
| BinaryBuffer.BinaryBuffer.Write | fma-common/binary_buffer.h:251-271 | appends to the content or, on a constant buffer or without memory, leaves it; replaces only its own block, and leaks none |
| BinaryBuffer.BinaryBuffer.Peek | fma-common/binary_buffer.h:284 | the bytes at the read pointer are the first of the content |
| BinaryBuffer.BinaryBuffer.Read | fma-common/binary_buffer.h:281-296 | takes exactly the first bytes off the content, if there are enough |
| BinaryBuffer.BinaryBuffer.MakeRoom | fma-common/binary_buffer.h:330-344 | the content moves to the end of a new block with room in front, and the old block is freed |
| BinaryBuffer.BinaryBuffer.FillFront | fma-common/binary_buffer.h:345-346 | the bytes are copied in front of the content |
| BinaryBuffer.BinaryBuffer.WriteHead | fma-common/binary_buffer.h:325-347 | prepends to the content; the block moves if and only if the room in front was too small or there was none |
| BinaryBuffer.BinaryBuffer.SetBuf | fma-common/binary_buffer.h:206-232 | the content is then the given bytes and the block owned before is freed, for both overloads |
| BinaryBuffer.Heap.Duplicate | fma-common/binary_buffer.h:163-166 | a new block with its own address followed by the given content, every other block untouched |
| BinaryBuffer.BinaryBuffer.DetachCopy | fma-common/binary_buffer.h:163-166 | such a block for the content of a constant buffer |
| BinaryBuffer.BinaryBuffer.RenewHead | fma-common/binary_buffer.h:170-173 | the address in the header becomes that of the current block |
| BinaryBuffer.BinaryBuffer.DetachOwn | fma-common/binary_buffer.h:168-175 | a buffer that owns its block gets the address of its current block as header, whether or not that moved it |
| BinaryBuffer.BinaryBuffer.DetachBuf | fma-common/binary_buffer.h:159-182 | hands out a pointer to exactly the content, with the current base address of the block just before it, if and only if the buffer is not constant; for a constant one the pointer is that base address; the buffer is empty afterwards and no block leaks |
| BinaryBuffer.FreeDetachedBuf | fma-common/binary_buffer.h:192-195 | frees exactly the block a detached pointer lies in, found through the stored address |
| BinaryBuffer.BinaryBuffer.PerformOne | fma-common/binary_buffer.h:251-347 | one call is one step of the byte deque, and a read past the end the only step the deque refuses |
| BinaryBuffer.BinaryBuffer.Perform | fma-common/binary_buffer.h:251-347 | over any run of Write, WriteHead and Read, `gpos_ <= ppos_ <= pend_` and content and results are those of the byte deque, across every reallocation; other blocks are untouched |
| BinaryBuffer.QueueKeepsOrder | fma-common/binary_buffer.h:251-296 | over a run without head writes, what was read and what is left spell the first content followed by everything written |

## Left out

- Real files, pipes, HDFS, MySQL, `mmap`, hardware probing, environment and directory code: foreign calls.
- Logger, configuration, thread ids, Base16 and the cache-aligned helpers: only easy members.
- `HardBitmap`: its `Reset` clears a whole byte, so the bitmap its interface promises is not there to prove.
- The MD5 round constants and the S-box tables: the proofs hold for every compression function and all tables, which are parameters.
- Big-endian hosts: words are laid out lowest byte first. In `Converter32` the byte order is the one under `__LITTLE_ENDIAN__` (fma-common/encrypt.h:27-31); without that macro the key and the S-box indices take the bytes in the opposite order.
- KeywordScanner.ScanKeyword: `toupper` is an arbitrary function on characters, and the switch between the stack buffer and `malloc` for more than 100 keywords is not modelled.
- Calendar.DayRoundTrip: the day count is a mathematical integer; the overflow of `dp.count() + 719468` near 2^31 is not modelled.
- Weekdays.NthOkMeansInMonth: the index is at most 15, the largest the four-bit field of `weekday_indexed` holds.
- Locale facets, stream flags, fractional seconds and the rest of `from_stream` and `to_stream`: only the formulas of %G, %V and the week-date resolution are modelled, as functions of the day.
- Blowfish.PKCS5PaddingLength: says nothing of what the original reads once the comparison loop is outside the string, which is undefined.
- Md5.MD5.Update: does not say whether a context could pass for one that read all the data when more than 2^61 bytes leave a counter that agrees modulo 2^64.
- Md5.DigestRightExactly: speaks of all compressions together; on which messages, if any, `MD5Transform` itself brings both starts to the same digest is not decided.
- BoundedQueue.NoWakeupIsLost: the capacity is fixed for a run, since `SetCapacity` must precede pushing; scheduling fairness, and so termination of a call, is not modelled. A mutex section is one atomic step; waiting releases the mutex and falls asleep in one step, as condition variables promise.
- StripedStream.InputMultiDiskStream.Read: requires an in-bounds read; `ReadEndsExactlyInBounds` says that the loop never ends otherwise. Parts are ideal byte sequences with a cursor, whose reads and seeks do not fail, and the chunk size is any positive number.
- Append mode of multi-disk files: `OutputBufferedFileStream::Open` sets the size of a part to 0 (fma-common/buffered_file_stream.h:157), so the sum of the part sizes is not the size of the file.
- Expressions.CloseExpression: from a '<' that does not count, the second half of "<<" or one after `operator`, the search starts with an empty stack and the contract says only that the result is in range. The regular expressions are modelled over ASCII characters.
- Expressions.ReverseCloseExpression: likewise from a '>' of "->", of " >= " or after `operator`.
- The returned line text of both searches is the line at the returned number and is left out.
- Preprocessor.NestingState.Update: `previous_stack_top` is left out, and so is sharing of stack entries between the saved and the current stack; the rest of Update is an arbitrary function of the line and the stack.
- cpplint's style checks, path handling, reporting and the look-ahead of `InTemplateArgumentList`.
- Serializer.BinaryRead: reads well-formed data only; on truncated data a short read of plain data returns a non-zero count. Operands of `+` are evaluated left to right, which C++ leaves open. Types with their own `Serialize` and `Deserialize` are left out.
- BinaryBuffer.BinaryBuffer.Write: sizes are mathematical integers; the wrap of `ppos_ * 2` beyond 2^63 bytes is not modelled. The bytes written are a value, so writing a buffer into itself is left out.
- BinaryBuffer.BinaryBuffer.InitOstream: reports missing memory, where the original goes on with a null pointer. The branch of `Read` behind the constant `SHRINK_WITH_GET = false` is left out, and so are Swap and the move constructor.
