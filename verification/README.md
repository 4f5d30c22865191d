# Models and proofs for a collection of small C and C++ programs

The repository collects small programs: a SHA-1 library, samples of durable file handling, sorting and
dynamic programming, two tools that turn XML strings into C initialisers and back, readers for git pack
files, a comment remover, and the copy of GNU `argmatch` inside diffutils.  This project models those that
hold an algorithm or a protocol and proves what they promise, for every input and for every step.
`dafny verify dfyconfig.toml` checks all of it.

| files | what they model | main results |
|---|---|---|
| `Sha1Standard.dfy`, `Sha1.dfy`, `Sha1Example.dfy` | the streaming context of `mozilla-sha1/sha1.c` | Init, any Updates and Final give the digest of sections 4 to 7 of FIPS PUB 180-1, however the message is cut: stale words in `W` never matter, `sizeHi:sizeLo` is the exact bit count, the padding loop ends; the digest of "abc" is the published one |
| `FileSystem.dfy`, `DurableReplace.dfy` | `full_write` and the replace sequence, on a file system with volatile and durable state | from the moment version 1 is durable, a crash in any state of any run leaves version 1 or version 2 whole; after the rename this holds exactly if the new data had been synced; every name and every other file at the end of any run |
| `Shellsort.dfy`, `Mergesort.dfy` | the two sorts, in place | a Shellsort pass keeps every gap order there was; Mergesort is stable and each call stays in its range |
| `EditDistance.dfy`, `Lcs.dfy`, `Lis.dfy`, `MaxSubsequenceSum.dfy`, `Subsequences.dfy`, `CTypes.dfy` | the dynamic programs and the three maximum-sum programs | each result is the optimum of an independent definition; exactly which lengths the `char` tables can cope with and exactly which arrays overflow the sums |
| `Refil.dfy`, `XmlEntities.dfy`, `XmlData.dfy`, `XmlAttribute.dfy` | the character source with pushback, the data reader and the attribute reader | any interleaving of reads and pushbacks sees the plain stream; escaped text and attribute values come back, the latter exactly when their longest intermediate form fits |
| `Utf8.dfy`, `CConstants.dfy`, `WidePrinter.dfy`, `WideParser.dfy`, `WideInit.dfy` | the UTF-8 decoder; the integer constants of C; the printer of wide-string initialisers with its buffer, the parser with `fgets`, and the two together | decoding undoes encoding (section 3 of RFC 3629); a printed line is, for C, an array of the units and a zero; printing a file and reading it back is defined exactly if every line fits the print buffer and every unit an int, and then all names and units come back |
| `PackIndex.dfy`, `PackHeader.dfy` | the check of a pack index; the header of a packed object | from the bytes of the file, the check passes exactly on tables that agree with the names, and when it reads past the file; a header is read back exactly if its size is below 2^31 |
| `CLexer.dfy`, `DeleteComment.dfy`, `Argmatch.dfy` | comments as C defines them, with literals and continued lines; the five-state comment remover; `argmatch` | the remover's outputs are exactly its fixed points; at every position it is inside a comment when C is, if and only if the text has none of four things that it does not know, and then it removes exactly the comments; the result of `argmatch` in every case |

Where the code and its documentation or its evident purpose differ, the model follows the code:

- `lcs_length` compares `x[1..x_length]` with `y[1..y_length]`, so its `main`, which passes strings of six
  characters and the length 6, leaves out the first characters and compares the terminating zeros.
- The `char` tables make `EditDistance` wrong for some strings of every pair of lengths of which one exceeds
  127, and `lcs_length` for some strings of every pair of lengths that both exceed 127; below these bounds both
  are right (`CharTableIsRightIff` in both modules).
- The readers of XML compare all but the last letter of an entity name, so `&amx;` is taken for `&amp;`
  (`EntityCharExactly`, `UnknownNameTaken`).  An attribute value is refused when an entity near its end does not fit
  the limit before it is replaced, although the value itself would fit (`RoundTripIff`, `LastThatFits`).
- `pj_ansi_to_unicode` drops every byte order mark in front, not just one, and returns a null pointer for any
  code point that needs four bytes (`FirstRefused`), because it compares the size of `wchar_t` in bytes with numbers of
  bits.
- `fsm/delete_comment.c` does not know string and character literals, so that it cuts `"//"` off behind its quote
  (`LiteralCut`); it does not know continued lines, so that it keeps the second line of a continued line comment
  (`CommentKept`); and a slash ends a block comment for it only after an odd run of stars, so that a comment whose
  text ends in an odd number of stars swallows what follows it (`BlockEndsIffOdd`, `BlockCommentRemovedIff`,
  `CodeSwallowed`).  `AgreesIffRegular` says that these are all the ways in which it misjudges where comments are.
  Besides, a slash at the very end is lost, C puts a space where it puts nothing, and the byte 0xFF ends the input
  because the character read is kept in a `char`.
- The maximum-sum programs overflow on some arrays: the cubic and the quadratic one exactly if some contiguous sum
  does not fit an int, the third one exactly if one of those that it forms does not (`DivideFits`).
- A numeric character reference is left as it stands in character data and refused in an attribute value
  (`NumericStays`, `NumericRefused`).
- `read_conf` gives a line that ends within six characters of its name the data that an earlier line has left in the
  buffer (`Parsed`), and a token of 200 characters or more runs on into the next row (`RowText`).
- The printer of wide strings overruns its buffer of 1280 bytes from lines of 1280 characters on, which about 155
  Chinese characters reach (`PrintLine`, `LongLine`).
- `parse_pack` shifts in an int, so a header is read only if its size is below 2^31 (`SafeHeaderIff`, `TooLarge`).
- `parse_index` refuses a bucket of 2^31 names or more, and reads past the file when the file ends before anything
  wrong is found, inside the table or behind it (`Check`).
- The trimming loop of the XML data reader keeps one space of a text that is nothing but blanks, and reads in front of
  its buffer if such a text is empty or starts with a tab (`Trim`).
- `lis` returns 1 for an empty array.
- `read_conf` puts each entry in front of the list, so a file comes back in reverse order.

The assumptions about the file system are stated at the head of `FileSystem.dfy`: fsync makes data or directory
entries durable, a file with unsynced data may hold anything after a crash, each unsynced directory operation may or
may not survive on its own, and a rename is one operation.

## Model

| member | source | states |
|---|---|---|
| `Sha1.FourBytesFillAWord` | mozilla-sha1/sha1.c:66-67 | whatever a word of W held, four bytes shifted in leave exactly those bytes, most significant first |
| `Sha1.ChooseAgrees` | mozilla-sha1/sha1.c:130 | the rewritten first logical function equals the standard's (B AND C) OR ((NOT B) AND D) |
| `Sha1.MajorityAgrees` | mozilla-sha1/sha1.c:138 | the rewritten third logical function equals the standard's majority |
| `Sha1.ChoosePass` | mozilla-sha1/sha1.c:129-132 | a pass of the first round loop is the standard's round, constant included |
| `Sha1.ParityPass` | mozilla-sha1/sha1.c:133-144 | the same for the second and the fourth loop |
| `Sha1.MajorityPass` | mozilla-sha1/sha1.c:137-140 | the same for the third loop |
| `Sha1.AbsorbAppend` | mozilla-sha1/sha1.c:68-71 | hashing whole blocks one by one is hashing their concatenation |
| `Sha1.BufferStep` | mozilla-sha1/sha1.c:65-71 | shifting in the next byte keeps the buffer right up to stale high bits; the 64th byte makes W[0..16) the block |
| `Sha1.CarryStep` | mozilla-sha1/sha1.c:72-73 | the carry from sizeLo to sizeHi adds 8 to the 64-bit count |
| `Sha1.BitCountIsExact` | mozilla-sha1/sha1.c:72-73 | the count is eight times the bytes, modulo 2^64 |
| `Sha1.LengthBytesAreBigEndian` | mozilla-sha1/sha1.c:86-93 | the bytes taken from the two halves are the 64-bit count, most significant first |
| `Sha1.Context.constructor` | mozilla-sha1/sha1.c:40-56 | a new context holds the empty message |
| `Sha1.Context.Reset` | mozilla-sha1/sha1.c:40-56 | an initialised context holds the empty message |
| `Sha1.Context.ExtendSchedule` | mozilla-sha1/sha1.c:119-121 | all 80 words are the standard's schedule of the first 16, whatever the others held |
| `Sha1.Context.RunRounds` | mozilla-sha1/sha1.c:129-144 | the four loops compute the standard's 80 rounds |
| `Sha1.Context.HashBlock` | mozilla-sha1/sha1.c:115-151 | the chained words become the standard's compression of the old ones with the block |
| `Sha1.Context.PlaceByte` | mozilla-sha1/sha1.c:66-71 | chain, buffer and fill stay those of the message as it grows by a byte |
| `Sha1.Context.CountByte` | mozilla-sha1/sha1.c:72-73 | sizeHi:sizeLo stays the exact bit count |
| `Sha1.Context.Update` | mozilla-sha1/sha1.c:59-75 | the message held grows by exactly the data, for data of any length |
| `Sha1.Context.UpdateAll` | mozilla-sha1/sha1.c:59-75 | any sequence of updates appends their concatenation to the message |
| `Sha1.Context.PadZeros` | mozilla-sha1/sha1.c:95-96 | the padding loop ends after the number of zero bytes the standard asks for |
| `Sha1.Context.Pad` | mozilla-sha1/sha1.c:86-97 | after the padding the chain is that of the padded message of section 4 |
| `Sha1.Context.EmitWord` | mozilla-sha1/sha1.c:101-104 | emptying a word of H from the top puts out its four bytes in order |
| `Sha1.Context.Emit` | mozilla-sha1/sha1.c:101-104 | hashout is the chained words, most significant byte first |
| `Sha1.Context.Final` | mozilla-sha1/sha1.c:78-110 | hashout is the digest of everything fed in, and the context is as new |
| `Sha1.HashChunks` | mozilla-sha1/sha1.c:40-110 | for every way of cutting a message under 2^64 bits into updates, the result is the standard's digest of the whole |
| `Sha1Example.DigestOfAbc` | mozilla-sha1/sha1.c:115-151 | the standard as it is written down here gives the published digest of Appendix A of FIPS PUB 180-1 |
| `Sha1Example.HashAbc` | mozilla-sha1/sha1.c:40-110 | the code gives it however the three bytes are cut into updates |
| `DurableReplace.FullWrite` | Ensuring_data_reaches_disk/sync-samples.h:17-49 | for every behaviour of write exactly the reported prefix is appended, and nothing else changes in any state passed through |
| `DurableReplace.OutcomeReasons` | Ensuring_data_reaches_disk/sync-samples.h:27-48 | less than everything is returned only after an error or a second zero write; -1 only if nothing was written; while neither has occurred it goes on |
| `DurableReplace.OutcomeWhenOver` | Ensuring_data_reaches_disk/sync-samples.h:17-51 | by the counts of what the calls of write took: what full_write returns when it is over after k calls and not before |
| `DurableReplace.OutcomeWaits` | Ensuring_data_reaches_disk/sync-samples.h:17-51 | while it is not over it goes on |
| `DurableReplace.MinusOneIff` | Ensuring_data_reaches_disk/sync-samples.h:37-40 | -1 is returned if and only if a call fails before any byte has been taken and before two calls take nothing |
| `DurableReplace.WriteFirst` | Ensuring_data_reaches_disk/replace_an_existing_file.c:30-70 | once the directory fsync has succeeded, version 1 is durable under the path; the exit code for every combination of failures; all names afterwards, and no other file touched |
| `DurableReplace.WriteTemp` | Ensuring_data_reaches_disk/replace_an_existing_file.c:93-105 | a short write removes the temporary file again; no state on the way touches version 1 |
| `DurableReplace.Prepare` | Ensuring_data_reaches_disk/replace_an_existing_file.c:87-115 | every state up to the close of the temporary file leaves version 1 as it was; on success that file is complete and synced |
| `DurableReplace.Publish` | Ensuring_data_reaches_disk/replace_an_existing_file.c:116-131 | every state from the rename on leaves one version whole; after the directory fsync it is version 2; after the rename the old name is gone |
| `DurableReplace.ReplaceWith` | Ensuring_data_reaches_disk/replace_an_existing_file.c:87-131 | the same for all of version 2; without the rename the old version stands; all names afterwards, whatever failed, and no other file touched |
| `DurableReplace.Run` | Ensuring_data_reaches_disk/replace_an_existing_file.c:30-133 | from the state in which version 1 is durable to the last state of any run, a crash leaves version 1 or version 2 whole; after the last directory fsync it is version 2; exit code 0 exactly if every call succeeds; a successful run leaves durably the names there were and the path, so no temporary file, and every other file as it was |
| `DurableReplace.StillOldSafe` | Ensuring_data_reaches_disk/replace_an_existing_file.c:87-115 | while only other names have pending operations, every crash leaves the old version |
| `DurableReplace.RenamedSafeIffSynced` | Ensuring_data_reaches_disk/replace_an_existing_file.c:106-120 | after the rename every crash leaves one version whole if and only if the new data had been synced |
| `DurableReplace.GarbageAfterUnsyncedRename` | Ensuring_data_reaches_disk/replace_an_existing_file.c:106-120 | without that fsync a crash could leave any content |
| `DurableReplace.EitherMayBeLeft` | Ensuring_data_reaches_disk/replace_an_existing_file.c:120-130 | until the directory fsync a crash after the rename may leave the old version and may leave the new one |
| `DurableReplace.TruncationIsUnsafe` | Ensuring_data_reaches_disk/replace_an_existing_file.c:30-55 | version 1 itself is written without protection: after the truncating open a crash can leave any content |
| `DurableReplace.MoveIsOneVersion` | Ensuring_data_reaches_disk/replace_an_existing_file.c:116-126 | renaming a synced file over a durable one is safe while pending and durable after the directory fsync |
| `Shellsort.Earlier` | sort/Shellsort.c:7-21 | in an h-sorted array a chain that starts h earlier has at least as many small elements |
| `Shellsort.PassKeepsOrder` | sort/Shellsort.c:7-21 | sorting the chains of one gap keeps the order by every other gap |
| `Shellsort.SinkSorts` | sort/Shellsort.c:11-19 | letting a value sink extends the gap order by one element |
| `Shellsort.SinkRearranges` | sort/Shellsort.c:11-19 | it only rearranges values within their chains |
| `Shellsort.Insert` | sort/Shellsort.c:11-19 | the shifting loop has the effect of exchanging neighbours until none is larger |
| `Shellsort.Pass` | sort/Shellsort.c:9-20 | a pass makes the array sorted for its gap, keeps it sorted for every gap it was sorted for, and permutes it |
| `Shellsort.Sort` | sort/Shellsort.c:3-21 | the result is a sorted permutation of the input |
| `Mergesort.MergedSorted` | sort/Mergesort.c:13-31 | merging sorted stretches gives a sorted one |
| `Mergesort.MergedMultiset` | sort/Mergesort.c:13-31 | merging keeps every item |
| `Mergesort.MergedStable` | sort/Mergesort.c:15-22 | because ties take the left item, items of equal key keep their order |
| `Mergesort.PutSmaller` | sort/Mergesort.c:15-22 | a pass of the first loop moves the item the merge puts next |
| `Mergesort.Merge` | sort/Mergesort.c:6-36 | the range becomes the merge of its two parts; nothing outside changes |
| `Mergesort.MSort` | sort/Mergesort.c:38-48 | the range is sorted, permuted and stable; nothing outside changes |
| `Mergesort.Sort` | sort/Mergesort.c:49-60 | the array is sorted, permuted and stable |
| `EditDistance.Minimum3` | editDistance/editDistance.c:3-7 | the result is one of the three and not above any |
| `EditDistance.Neighbours` | editDistance/editDistance.c:18-25 | neighbouring cells differ by at most one, so copying the diagonal on a match loses nothing |
| `EditDistance.EditMovesByOne` | editDistance/editDistance.c:18-25 | one edit anywhere in a string moves its distance to any third string by at most one |
| `EditDistance.LevIsLowerBound` | editDistance/editDistance.c:9-27 | no chain of insertions, deletions and substitutions is shorter than the recurrence says |
| `EditDistance.LevIsReached` | editDistance/editDistance.c:9-27 | one chain is as short |
| `EditDistance.LevIsDistance` | editDistance/editDistance.c:9-27 | so the recurrence gives the least number of edits |
| `EditDistance.LevSymmetric` | editDistance/editDistance.c:9-27 | the distance is symmetric |
| `EditDistance.LevTriangle` | editDistance/editDistance.c:9-27 | it satisfies the triangle inequality |
| `EditDistance.LevZeroOnlyIfEqual` | editDistance/editDistance.c:9-27 | it is zero exactly between equal strings |
| `EditDistance.Column` | editDistance/editDistance.c:18-25 | the inner loop fills a column with the recurrence's values |
| `EditDistance.Compute` | editDistance/editDistance.c:9-27 | for lengths up to 127 the least number of edits; for all lengths the recurrence with every value squeezed into a char |
| `EditDistance.CharTableIsRightIff` | editDistance/editDistance.c:13-27 | the char table is right for all strings of two given lengths if and only if both are at most 127 |
| `Lcs.NoneLonger` | lcs/longest_common_subsequence.c:45-74 | no common subsequence is longer than the recurrence says |
| `Lcs.SpellLength` | lcs/longest_common_subsequence.c:53-74 | following table b back spells a string of the length in table c |
| `Lcs.SpellIsCommon` | lcs/longest_common_subsequence.c:53-74 | that string is a common subsequence |
| `Lcs.FillRow` | lcs/longest_common_subsequence.c:55-72 | the inner loop fills a row of both tables |
| `Lcs.Tables` | lcs/longest_common_subsequence.c:45-73 | the loops fill both tables with values and directions |
| `Lcs.LcsLength` | lcs/longest_common_subsequence.c:15-75 | the result is the length of a longest common subsequence of the ranges read, and table b spells one of that length |
| `Lcs.CharTableIsRightIff` | lcs/longest_common_subsequence.c:45-74 | the char table is right for all strings of two given lengths if and only if one of them is at most 127 |
| `Lis.EndingReached` | lcs/lcs.cpp:9-18 | an increasing subsequence of the tabulated length ends at each position |
| `Lis.NoneLonger` | lcs/lcs.cpp:9-18 | none that ends there is longer |
| `Lis.Compute` | lcs/lcs.cpp:5-22 | the result is the length of a longest strictly increasing subsequence if and only if the array is not empty |
| `MaxSubsequenceSum.Cubic` | MaxSubsequenceSum/MaxSubsequenceSum01.c:2-23 | no addition overflows if and only if every contiguous sum fits an int, and then the result is the largest of them, the empty one included |
| `MaxSubsequenceSum.Quadratic` | MaxSubsequenceSum/MaxSubsequenceSum02.c:3-20 | the same |
| `MaxSubsequenceSum.Max3` | MaxSubsequenceSum/MaxSubsequenceSum03.c:3-8 | the result is one of the three and not below any |
| `MaxSubsequenceSum.LeftBorder` | MaxSubsequenceSum/MaxSubsequenceSum03.c:27-33 | the largest sum of a stretch that ends in the middle; overflow exactly if one of these does not fit |
| `MaxSubsequenceSum.RightBorder` | MaxSubsequenceSum/MaxSubsequenceSum03.c:35-41 | the largest sum of a stretch that starts in the middle; overflow exactly if one of these does not fit |
| `MaxSubsequenceSum.Combine` | MaxSubsequenceSum/MaxSubsequenceSum03.c:43 | the largest of left, right and joined borders is the largest of the whole |
| `MaxSubsequenceSum.AcrossIff` | MaxSubsequenceSum/MaxSubsequenceSum03.c:43 | the sum of the two borders fits exactly if all sums across the middle are below 2^31 |
| `MaxSubsequenceSum.AllFitDivides` | MaxSubsequenceSum/MaxSubsequenceSum03.c:10-44 | nothing overflows if every contiguous sum fits and there are no more than 2^30 elements |
| `MaxSubsequenceSum.MaxSubSum` | MaxSubsequenceSum/MaxSubsequenceSum03.c:10-44 | nothing overflows if and only if the sum of the indices, the borders and the sums across the middle fit, here and in the halves; then the largest sum inside the range |
| `MaxSubsequenceSum.DivideAndConquer` | MaxSubsequenceSum/MaxSubsequenceSum03.c:46-49 | the same for the whole array |
| `MaxSubsequenceSum.AllThree` | MaxSubsequenceSum/MaxSubsequenceSum03.c:46-49 | on every non-empty array those of the three programs that do not overflow agree, and none overflows if all sums fit and there are no more than 2^30 elements |
| `MaxSubsequenceSum.LargestInt` | MaxSubsequenceSum/MaxSubsequenceSum01.c:2-23 | one more than the largest int, and one less than the smallest, is a sum that does not fit |
| `Refil.Source.constructor` | wide_char/make_complex_chinese.c:176-207 | a new source will give its buffer and then its chunks |
| `Refil.Source.Refill` | wide_char/make_complex_chinese.c:223-237 | a refill changes nothing about what will be read; a failure shows in the status |
| `Refil.Source.GetC` | wide_char/make_complex_chinese.c:238-257 | the next character of the plain stream, end-of-file exactly when there is none, with the status telling failure from end |
| `Refil.Source.UngetC` | wide_char/make_complex_chinese.c:13 | the character is read next and nothing else changes |
| `Refil.RunOps` | wide_char/make_complex_chinese.c:223-257 | any interleaving of reads and pushbacks, over any cutting into chunks, sees what a plain stream with one slot gives |
| `Refil.PeekIsTransparent` | wide_char/make_complex_chinese.c:238-257 | reading and pushing back changes nothing for what follows |
| `XmlEntities.EntityCharExactly` | wide_char/make_complex_chinese.c:293-310 | exactly which names are taken for which character: all but the last letter is compared |
| `XmlEntities.NamesAreRecognised` | wide_char/make_complex_chinese.c:306-310 | each of the five predefined names is taken for its character |
| `XmlEntities.LastLetterIgnored` | wide_char/make_complex_chinese.c:293-310 | names that differ in their last letter only are taken for the same character |
| `XmlEntities.UnknownNameTaken` | wide_char/make_complex_chinese.c:293-306 | `&amx;` is taken for an ampersand |
| `XmlData.FeedEntity` | wide_char/make_complex_chinese.c:277-317 | an entity read in full has the effect of its character, the buffer being rewound |
| `XmlData.RoundTrip` | wide_char/make_complex_chinese.c:261-356 | any text escaped with the predefined entities, the optional ones chosen freely, and followed by a tag comes back without its trailing blanks, unless nothing would be left of it |
| `XmlData.UnknownStays` | wide_char/make_complex_chinese.c:277-321 | an entity that is not recognised stays as it is written |
| `XmlData.NumericStays` | wide_char/make_complex_chinese.c:277-321 | so does a numeric character reference |
| `XmlData.UnclosedAtEnd` | wide_char/make_complex_chinese.c:336-340 | an ampersand that no semicolon follows before the tag or the end is an unclosed entity |
| `XmlData.BadEntity` | wide_char/make_complex_chinese.c:277-302 | so is a second ampersand before the semicolon, and a semicolon after no or one character is a wrong entity |
| `XmlData.EndOfSource` | wide_char/make_complex_chinese.c:342-346 | text without a tag behind it is read if the source has ended, and is an error if reading has failed |
| `XmlData.RawRoundTrip` | wide_char/make_complex_chinese.c:277 | without escapes any text before a tag comes back as it stands |
| `XmlData.TrimEndIs` | wide_char/make_complex_chinese.c:348-350 | trimming leaves the text up to its last character that is neither space nor tab |
| `XmlData.NeverUnderruns` | wide_char/make_complex_chinese.c:346-352 | on a stream that starts with a character that is neither blank nor a tag, which is what the only caller has seen, the reader never reads in front of its buffer and trims at the end only |
| `XmlData.PutChar` | wide_char/make_complex_chinese.c:277-321 | the rewinding, overwriting and growing buffer holds the text read so far; the two malformed cases are reported |
| `XmlData.Trim` | wide_char/make_complex_chinese.c:348-350 | for every text: trailing spaces and tabs go, a text of blanks keeps a space in front, and the loop reads in front of the buffer exactly if nothing would be left |
| `XmlData.Gather` | wide_char/make_complex_chinese.c:271-333 | the loop reads up to the tag or the end and pushes the tag back |
| `XmlData.ReadData` | wide_char/make_complex_chinese.c:261-356 | on any stream: the node's text, the error, or reading in front of the buffer, as the data part of the stream means; the source is left at the tag |
| `XmlData.ReadEscaped` | wide_char/make_complex_chinese.c:223-356 | the round trip of any text through a source cut into chunks anyhow |
| `XmlAttribute.ScannedEntity` | wide_char/make_complex_chinese.c:773-808 | an entity becomes its character if it fits below the limit, else the value is too long |
| `XmlAttribute.RoundTripIff` | wide_char/make_complex_chinese.c:662-838 | an attribute written with any blanks before its name, before the '=' and before its quote is read back if and only if its name has at most 128 characters and every escaped character of its value fits the limit before it is replaced; otherwise name or value is reported too long |
| `XmlAttribute.NotAName` | wide_char/make_complex_chinese.c:680-697 | blanks and then '>' or '/' mean that there is no attribute; any other first character but a letter is an error |
| `XmlAttribute.NoEquals` | wide_char/make_complex_chinese.c:700-739 | a name that no '=' follows is malformed |
| `XmlAttribute.NoQuote` | wide_char/make_complex_chinese.c:742-760 | so is an '=' that no quote follows |
| `XmlAttribute.EndsEarly` | wide_char/make_complex_chinese.c:815-827 | so is a stream that ends before the closing quote |
| `XmlAttribute.EntityCutShort` | wide_char/make_complex_chinese.c:773-808 | the quote inside an entity closes the value as it stands; a semicolon too early is a wrong entity, anything else but a letter an unclosed one |
| `XmlAttribute.RawRoundTrip` | wide_char/make_complex_chinese.c:755-772 | without escapes any value of up to 256 characters comes back as it stands |
| `XmlAttribute.LastThatFits` | wide_char/make_complex_chinese.c:676-815 | 252 letters and an escaped ampersand come back, 253 are too long |
| `XmlAttribute.NumericRefused` | wide_char/make_complex_chinese.c:801-806 | a numeric character reference is an unclosed entity |
| `XmlAttribute.PassEntity` | wide_char/make_complex_chinese.c:773-808 | inside an entity: when it is closed its character overwrites the ampersand in `buf_attrib`, the position goes back there, and no write leaves the array |
| `XmlAttribute.Pass` | wide_char/make_complex_chinese.c:676-809 | one pass of the switch on the arrays of 129 and 513 bytes keeps them holding name and value of the state machine, or returns its result |
| `XmlAttribute.ReadAttribute` | wide_char/make_complex_chinese.c:662-838 | the attribute, its absence or the error is what the state machine ends in, and the source is left behind the closing quote |
| `XmlAttribute.ReadWritten` | wide_char/make_complex_chinese.c:223-257 | the same through a source cut into chunks anyhow, which is left behind the attribute |
| `Utf8.NextOfEncoded` | wide_char/make_complex_chinese.c:1209-1276 | the bytes of an encoded code point are decoded as that code point, skipped or refused |
| `Utf8.RoundTrip` | wide_char/make_complex_chinese.c:1192-1280 | decoding the encoding of code points gives them back without leading byte order marks and cut to the room; nothing exactly when one that is reached needs four bytes |
| `Utf8.FirstRefused` | wide_char/make_complex_chinese.c:1209-1276 | 0x10000 is refused, 0xFFFF is not |
| `Utf8.OddByte` | wide_char/make_complex_chinese.c:1209-1272 | a byte that starts no sequence refuses the text, a sequence that is cut off gives a question mark and ends it, a zero ends it |
| `Utf8.StrayRefused` | wide_char/make_complex_chinese.c:1270-1272 | so a byte in 0x80..0xBF or from 0xF8 on where a sequence should start refuses the text, whatever is before and behind it |
| `Utf8.MarkAtStart` | wide_char/make_complex_chinese.c:1237-1239 | the bytes EF BB BF are passed over as long as nothing has been written, and are a character afterwards |
| `Utf8.ReadToken` | wide_char/make_complex_chinese.c:1209-1275 | the branches of the loop body |
| `Utf8.DecodeInto` | wide_char/make_complex_chinese.c:1207-1277 | the loop writes exactly the decoded units and zeros after them |
| `Utf8.AnsiToUnicode` | wide_char/make_complex_chinese.c:1192-1280 | the buffer holds the decoded units and ends in a zero; a null pointer for no input or bytes that are refused |
| `Utf8.DecodeEncoded` | wide_char/make_complex_chinese.c:1192-1280 | the round trip in a buffer of any size |
| `WideInit.ValueOfHex` | wide_char/hex_to_str.c:151-172 | the value of a printed number is the number |
| `WideParser.HexStrToBin` | wide_char/hex_to_str.c:151-172 | the number accumulated from the digits, other characters passed over; the int overflows exactly if the number is 2^31 or more |
| `WideParser.ValueIsOfDigits` | wide_char/hex_to_str.c:151-172 | the number is that of the lower-case hexadecimal digits, whatever stands between them |
| `WideParser.StrTok` | wide_char/hex_to_str.c:132-137 | the next token and where to go on |
| `WideParser.TokensAreRuns` | wide_char/hex_to_str.c:132-137 | the tokens are the runs of characters that are neither comma nor space |
| `WideParser.Split` | wide_char/hex_to_str.c:121-149 | the first tokens, at most as many as asked for, and their number; without tokens nothing is copied and the number stays as it was |
| `WidePrinter.Snprintf` | wide_char/make_complex_chinese.c:1338-1343 | what snprintf leaves in the array for any position and size, and exactly when it leaves the array |
| `WidePrinter.PrintUnit` | wide_char/make_complex_chinese.c:1339-1342 | a pass of the loop stays inside the buffer exactly if no more than 1280 characters were due before it, and the buffer then holds the text as long as it fits |
| `WidePrinter.PrintLine` | wide_char/make_complex_chinese.c:1329-1344 | every write stays inside the buffer if and only if the line has fewer than 1280 characters, and then that line is put out |
| `WidePrinter.LongLine` | wide_char/make_complex_chinese.c:1329-1344 | 199 Chinese characters make a line of 1631 characters |
| `WideInit.HexInC` | wide_char/make_complex_chinese.c:1341 | a printed number is a hexadecimal constant of that value by section 6.4.4.1 of C99 |
| `WideInit.LineInC` | wide_char/make_complex_chinese.c:1338-1343 | the line defines an array of wide characters whose constants have the values of the units and of a zero behind them |
| `WideInit.ExampleLine` | wide_char/make_complex_chinese.c:1338-1343 | the line for one letter, written out |
| `WideParser.ParseLine` | wide_char/hex_to_str.c:58-83 | the name up to the bracket and the data up to the last brace, taken from the line buffer with what earlier lines left in it |
| `WideInit.ParsedLine` | wide_char/hex_to_str.c:66-83 | a printed line is parsed into the name with its prefix and the printed list |
| `WideInit.TokensOfInside` | wide_char/hex_to_str.c:121-149 | the tokens of a printed list are the printed units and the closing zero |
| `WideInit.ValuesOfInside` | wide_char/hex_to_str.c:204-211 | fewer than 200 units come back with a closing zero; more are cut off at 200 |
| `WideParser.ReadRow` | wide_char/hex_to_str.c:134-139 | a row of 200 characters runs on into the next one; a terminator is found exactly if a later token that is copied is shorter |
| `WideParser.Convert` | wide_char/hex_to_str.c:204-211 | defined exactly if there is a token, the last row has a terminator and the numbers fit an int; then the numbers of the first 200 rows |
| `WideParser.Fgets` | wide_char/hex_to_str.c:54 | the characters up to a newline, 10239 characters or the end of the file, and nothing exactly at the end |
| `WideParser.NodeIsOfLine` | wide_char/hex_to_str.c:58-83 | for a line with six characters behind its name, what earlier lines left in the buffer does not matter |
| `WideParser.LineCounts` | wide_char/hex_to_str.c:58-85 | a line that starts as a definition becomes a node in front of the others, any other line is passed over |
| `WideParser.ReadConf` | wide_char/hex_to_str.c:54-86 | on the text of any file: defined exactly if it only ever reads what was written to its line buffer, and then the list of all lines with the prefix, the last one first |
| `WideInit.BuffersOfText` | wide_char/hex_to_str.c:54 | fgets cuts a file of lines into exactly these lines, whatever was in its buffer |
| `WideInit.FileRoundTrip` | wide_char/hex_to_str.c:54-172 | reading the text of all printed lines gives, in reverse order, every name with its prefix and every list of units with a closing zero or cut off at 200, convertible exactly if the units fit ints |
| `WideInit.PrintFile` | wide_char/make_complex_chinese.c:1326-1345 | every write stays inside the buffer if and only if every line fits it, and then the file is all the lines |
| `WideInit.ShowAll` | wide_char/hex_to_str.c:197-214 | defined exactly if every list can be converted; then all names without their first four characters and all units |
| `WideInit.PrintAndShow` | wide_char/hex_to_str.c:187-214 | both programs in a row on any entries: defined if and only if every line fits the print buffer and every unit used an int, and then all names and units come back, the last entry first |
| `PackIndex.CheckedIffAgrees` | gitpack_parse/parse_index.c:77-117 | the two checks hold exactly when each entry counts the names up to its byte and each bucket is exactly its slots |
| `PackIndex.Differences` | gitpack_parse/parse_index.c:77-94 | on any file: failure exactly on a table that decreases as far as the file goes; reading past the file exactly if it does not and is cut short; otherwise the bucket sizes as ints, which add up to the last entry if none wraps |
| `PackIndex.CheckBucket` | gitpack_parse/parse_index.c:99-116 | passes exactly if the slots are in the file and start with the bucket's byte; reads past the file exactly if it ends before a wrong name; refuses a negative size |
| `PackIndex.CheckNames` | gitpack_parse/parse_index.c:96-117 | passes exactly if every bucket does; reads past the file exactly if it ends inside a bucket with everything right before |
| `PackIndex.Check` | gitpack_parse/parse_index.c:77-117 | on any file: passes exactly if table and names are in the file, no bucket has 2^31 names and the table agrees with them; reads past the file exactly if the file ends, inside the table or behind it, before anything wrong |
| `PackIndex.LayoutRoundTrip` | gitpack_parse/parse_index.c:76-95 | of a file written as eight bytes, the entries as four bytes each, most significant first, and the names of twenty bytes, the entries and the first bytes of the names are read back |
| `PackIndex.CheckWritten` | gitpack_parse/parse_index.c:77-117 | an index whose last entry counts its names passes if and only if no bucket has 2^31 names and the table agrees with the names |
| `PackHeader.DecodedRest` | gitpack_parse/parse_pack.c:122-127 | the sum of the shifted bits of an encoded number is the number, over exactly its bytes |
| `PackHeader.SafeRestIff` | gitpack_parse/parse_pack.c:125 | every shift over an encoded number is by less than 32 and stays below 2^31 if and only if the number does at its place |
| `PackHeader.SafeHeaderIff` | gitpack_parse/parse_pack.c:117-127 | an encoded header is read with defined shifts if and only if its size is below 2^31 |
| `PackHeader.TooLarge` | gitpack_parse/parse_pack.c:125 | the size 2^31 is not |
| `PackHeader.DecodeRest` | gitpack_parse/parse_pack.c:120-127 | defined exactly if the end is found with every shift below 32 and every addend below 2^31; then the sum and the bytes taken |
| `PackHeader.DecodeHeader` | gitpack_parse/parse_pack.c:117-127 | on any bytes: defined exactly if the header ends with defined shifts; then type, size and length of the header |
| `PackHeader.RoundTrip` | gitpack_parse/parse_pack.c:117-127 | whatever follows, what DecodeHeader gives for an encoded header, where it is defined, is its type, its size and its length |
| `PackHeader.EncodeExamples` | gitpack_parse/parse_pack.c:117-127 | three headers written out |
| `PackHeader.DecodeEncoded` | gitpack_parse/parse_pack.c:117-127 | through the code: defined if and only if the size is below 2^31, and then type and size come back and exactly the bytes of the header are taken |
| `DeleteComment.Run` | fsm/delete_comment.c:6-75 | the program puts out what the five-state machine emits |
| `DeleteComment.OutputIsSubsequence` | fsm/delete_comment.c:6-75 | the output is made of input characters in order; state 1 holds one slash back |
| `DeleteComment.OutputIsClean` | fsm/delete_comment.c:6-75 | the output has no comment start and no dangling slash |
| `DeleteComment.FixedIffClean` | fsm/delete_comment.c:6-75 | the remover leaves a text alone if and only if it has neither |
| `DeleteComment.StripCorrect` | fsm/delete_comment.c:6-75 | for every input: a clean subsequence, which a second run does not change |
| `DeleteComment.LineCommentRemoved` | fsm/delete_comment.c:22-48 | a line comment met in code goes, its newline stays |
| `DeleteComment.InsideBlock` | fsm/delete_comment.c:49-68 | in the text of a block comment nothing is put out, and the state tells the parity of the stars at its end |
| `DeleteComment.BlockCommentRemovedIff` | fsm/delete_comment.c:22-68 | a block comment met in code goes entirely if the number of stars at the end of its text is even; if it is odd, what follows is still taken for comment |
| `DeleteComment.BlockEndsIffOdd` | fsm/delete_comment.c:49-68 | a slash after any text ends a block comment if and only if an odd run of stars is before it |
| `DeleteComment.OddCommentSwallows` | fsm/delete_comment.c:49-68 | what follows the shortest comment whose end is missed is taken for comment |
| `DeleteComment.ExpectedStep` | fsm/delete_comment.c:17-72 | where the text has none of the four troubles the machine follows C, and each trouble puts one inside a comment and the other outside |
| `DeleteComment.AgreesIffRegular` | fsm/delete_comment.c:6-75 | at every position the machine is inside a comment exactly when C is, if and only if the text has none of the four troubles: a comment start in a literal, one split by a continued line, a continued line comment, a block comment's end after an even number of stars |
| `DeleteComment.OutputSoFar` | fsm/delete_comment.c:17-72 | at every position of such a text, what has been put out is exactly what is outside comments, but for a slash held back |
| `DeleteComment.RemovesComments` | fsm/delete_comment.c:17-72 | of such a text the machine puts out exactly the characters that C has outside comments, except a slash that stands last |
| `DeleteComment.StripRemovesComments` | fsm/delete_comment.c:6-75 | the same for the program |
| `DeleteComment.LiteralCut` | fsm/delete_comment.c:17-44 | a string literal of two slashes loses its end |
| `DeleteComment.CodeSwallowed` | fsm/delete_comment.c:49-68 | `/***/x` gives nothing |
| `DeleteComment.CommentKept` | fsm/delete_comment.c:45-48 | the second line of a continued line comment is kept |
| `Argmatch.Match` | diffutils-3.3/gnulib-tests/argmatch.c:82-122 | the first exact match; else -1 without a prefix match; else the first prefix match if all are synonyms; else -2 |
| `Argmatch.ToArgument` | diffutils-3.3/gnulib-tests/argmatch.c:195-206 | the first name with the value, if there is one |
| `Argmatch.RoundTrip` | diffutils-3.3/gnulib-tests/argmatch.c:82-206 | with distinct names, matching the name of a value selects an entry with that value |

## Left out

- Trigraphs, and literals that are not closed on their line, which C leaves undefined: in `CLexer` a newline ends them.
- Sockets, D-Bus, curses, signals, processes, mmap, watchdog and locale demonstrations: system calls without an algorithm.
- Inflation of packed data, opening of files, parsing of command lines and printing: foreign calls and plumbing.
- The tree building of the XML reader (`mxml_node_read` and its callers): its outer state machine enters a state it has no case for.
- `EditPath`, which prints hints only, and the unfinished files `lcs/lcs_up_to_down.cpp`, `lcs/zigzag.cpp` and `gitpack_parse/get_obj_by_index_packfile.c`.
- Binary search, string tables, gcd, word count, insertion sort, the MAC address increment and `sha1_to_hex`: easy members.
- Failing allocations: every allocation succeeds.
- The line counter `iLine` of the XML readers: it only adds up newlines.
- `gitpack_parse/sha1.c`: the same code as `mozilla-sha1/sha1.c`.
- Sha1.Context.Emit: the twenty passes of the output loop are written as four passes for each of five words.
- DurableReplace.FullWrite: the behaviour of write is a finite list; a run that outlasts it is reported as waiting, so a write that is interrupted for ever is seen only up to any finite point.
- Mergesort.Sort: sorts items by an int key instead of ints, so that stability can be stated.
- MaxSubsequenceSum.DivideAndConquer: an empty array is excluded because the source's recursion has no base case for it.
- XmlData.ReadData: what is found in front of the buffer, when the reader gets there, is left open.
- Utf8.AnsiToUnicode: a unit is four bytes wide and a missing input is an empty one.
- WideParser.HexStrToBin: the branch that can never be taken is omitted.
- WideParser.Convert: rows that were never written count as undefined.
- WidePrinter.PrintLine: names are C strings and units are the characters of a wide string; a write past the buffer, or a position more than one past it, ends the model's run as undefined.
- WideParser.ReadConf: reading what was never written to the line buffer counts as undefined.
- WideInit.ShowAll: the conversions of `fwprintf` are left out.
- PackIndex.Check: what is found past the file is left open; the run ends there.
- PackHeader.DecodeHeader: reading past the bytes and an undefined shift both end the run as undefined.
