# NeoDOS in Dafny

A model of the algorithms and small protocols inside NeoDOS that are hard to get right, with proofs of what they
do for every input, every run and every interleaving. Each module follows one part of the system:

- **IdIndex**: the kernel's growing, linear-probing index from ids to positions, for any hash function.
- **Lzss, LzssSearch, Crc, CrcDivision, CrcCheck, Utf16, Utf16Rewrite, NltIndex, Nlt, NltPlural, NltCompile**: the
  language table format, from the compiler that writes a table through compression, checksum and UTF-16 rewriting to
  the lookup of a string or of the plural form for a count.
- **Calendar**: civil dates, day numbers and two-digit UTC timestamps of the time library.
- **E1000**: the network driver's receive ring, driver and controller as two interleaved processes.
- **Apc, Irp**: per-thread queues of asynchronous procedure calls, and I/O requests completed through them.
- **DnsTypes, DnsName, DnsAnswers, DnsReply, DnsSelection, DnsResolve**: names on the wire, choosing the addresses of
  a reply, writing queries and reading replies, asking the servers.
- **Pci**: discovery of the buses behind bridges.
- **IntMath**: integer square root and wrapping power.
- **Bits, Bytes, Picking, Pigeonhole**: shared definitions.

Code that works step by step on buffers and fields is modelled by methods on arrays and classes, each tied by its
contract to a function of its inputs or of the old state; the main results are lemmas about those functions.
Concurrent parts are state machines over their single accesses or locked sections, and a run is any sequence of
steps. `dafny verify dfyconfig.toml` checks the whole project.

## Findings

Some properties one would expect are false of the code. The model keeps the code as it is; for each there is a
concrete input and the exact condition under which the property holds.

- An id updated while a tombstone lies in front of it is stored twice; removing it then brings the old value back
  (`IdIndex.StaleCopyInKernel`, keys 2 and 7). A run acts as a finite map exactly when no operation of it updates a key
  behind a tombstone in a table that does not grow (`IdIndex.ActsAsMapIff`), so whenever each inserted key is absent or
  the table has no tombstone then (`IdIndex.FreshActsAsMap`).
- The compressor searches further back than its 12-bit offsets can say, so inputs over 4096 bytes can be lost
  (`Lzss.FarRepeatLost`, 4099 bytes). An input comes back exactly when every match of its parse survives the cut of
  its offset (`Lzss.RoundTrip`).
- Two-digit years from 1970 to 1999 come back a century later, though the comment on the conversion speaks only of
  dates that cannot be represented; a time survives exactly from 2000 on (`Calendar.UtcRoundTrip`). A second 60 is
  accepted and does not survive (`Calendar.DateTimeRoundTrip`).
- A UTF-16 table is rewritten without string terminators, so every lookup in it fails (`Nlt.RewrittenUnreadable`),
  and a table the compiler writes with its UTF-16 option decodes but holds no string that can be looked up
  (`NltCompile.WideTableUnreadable`). With plural groups it may not decode at all: UTF-8 forms can be longer than the
  UTF-16 ones they come from, and then their one-byte offsets do not fit (`NltCompile.WideGroupTooLong`). It decodes
  exactly when they fit, and the buffer has room (`NltCompile.WideRewrites`).
- The header flag for tables with a plural group is never set by the compiler; it is right exactly for tables without
  one (`NltCompile.PluralNotFlagged`).
- A plural group should show its category's form, or the one for other counts, or any that is not empty. Of the others
  only one slot is tried (`NltPlural.SlotNotTried`); it shows something exactly when one of those three slots does
  (`NltPlural.ShownIff`). A compiled group whose form for other counts has anything
  before a zero character always shows something (`NltCompile.GroupShows`).
- A thread may begin an alertable wait with calls already queued, and wait on with all but the ones it then serves
  (`Apc.MissedCalls`); it waits with calls queued exactly when there were more than it took since
  (`Apc.WaitKeepsQueue`). What beginning the wait returns should tell whether a call ended it; the scheduler may end it
  with the same result (`Apc.WrongResult`), and the result is right exactly when the section that ended the wait queued
  a user call and found room (`Apc.ResultAgrees`).
- Freeing a request frees whatever holds its slot (`Irp.StaleCompletion`); others are spared exactly when the slot
  holds no other (`Irp.FreeSparesOthers`).
- A name whose pointers lead in a circle keeps the decoder busy for ever, even when every pointer goes back
  (`DnsName.SelfPointer`, `DnsName.BackIsNotEnough`); the walk ends exactly when it ends within as many moves as there
  are bytes (`DnsName.HaltsIff`).

## Model

| member | source | states |
|---|---|---|
| IdIndex.Index.constructor | neodos-kernel/src/id_index.rs:24-33 | a new table of 16 empty slots is the empty map |
| IdIndex.HomeMask | neodos-kernel/src/id_index.rs:50 | masking a hash gives the remainder by the power-of-two capacity |
| IdIndex.NextSlot | neodos-kernel/src/id_index.rs:55 | masking wraps a probe step past the last slot to slot 0 |
| IdIndex.HashValues | neodos-kernel/src/id_index.rs:42-45 | the hash is the upper half of the product with 0x9E3779B97F4A7C15: the keys 1 and 2^32 show both halves of it |
| IdIndex.HashWraps | neodos-kernel/src/id_index.rs:42-45 | the product is cut to 64 bits |
| IdIndex.LegalIff | neodos-kernel/src/id_index.rs:5-12 | every key but 0 and 2^64 - 1 can be stored |
| IdIndex.EmptyExists | neodos-kernel/src/id_index.rs:6-7 | fewer non-empty slots than slots leave an empty one, the reason every probe ends |
| IdIndex.Index.Seek | neodos-kernel/src/id_index.rs:89-99 | the probe ends at an empty slot exactly when the key is absent from the map, else at its first copy |
| IdIndex.Index.SeekFree | neodos-kernel/src/id_index.rs:69-84 | the probe of an insertion ends, at the first slot that is empty, a tombstone or the key |
| IdIndex.Index.Get | neodos-kernel/src/id_index.rs:49-57 | lookup is lookup in the map the table stands for, in every reachable table, even with a key stored twice |
| IdIndex.Index.Insert | neodos-kernel/src/id_index.rs:60-66 | the key is bound to the value, the load stays under three quarters; from distinct keys the map gains the binding, and they stay distinct exactly when the table grew or the key was not behind a tombstone |
| IdIndex.Index.InsertNoGrow | neodos-kernel/src/id_index.rs:68-85 | the map gains the binding; distinctness is lost exactly for a key behind a tombstone |
| IdIndex.Index.Remove | neodos-kernel/src/id_index.rs:88-100 | all other bindings stay, and the key is gone exactly when it was not stored twice |
| IdIndex.Index.Grow | neodos-kernel/src/id_index.rs:102-114 | twice the slots, no tombstone, distinct keys, the bindings replayed in slot order |
| IdIndex.RefilledOk | neodos-kernel/src/id_index.rs:109-113 | re-inserting the live entries of the old slots into a blank table stands for those entries replayed in order |
| IdIndex.InsertChain | neodos-kernel/src/id_index.rs:68-85 | an insertion keeps every key reachable by its probe without meeting an empty slot |
| IdIndex.InsertModel | neodos-kernel/src/id_index.rs:68-85 | writing at the insertion point updates the map at that key only |
| IdIndex.InsertUnique | neodos-kernel/src/id_index.rs:72-78 | keys stay distinct exactly when the inserted key does not lie behind a tombstone |
| IdIndex.RemoveChain | neodos-kernel/src/id_index.rs:93-95 | a tombstone breaks no other key's probe |
| IdIndex.RemoveModel | neodos-kernel/src/id_index.rs:88-100 | the key survives removal exactly when it has a second copy; nothing else changes |
| IdIndex.LenIsSize | neodos-kernel/src/id_index.rs:36 | the stored length is the size of the map exactly when no key is stored twice |
| IdIndex.ReplayIsModel | neodos-kernel/src/id_index.rs:102-114 | rehashing distinct keys changes no lookup, for any hash function |
| IdIndex.PutOk | neodos-kernel/src/id_index.rs:68-85 | putting a key adds the binding, keeps every probe whole, and keeps keys distinct exactly when the key is not behind a tombstone |
| IdIndex.GrownOk | neodos-kernel/src/id_index.rs:102-114 | growth leaves room, no tombstone, distinct keys and the bindings replayed in slot order |
| IdIndex.BuryOk | neodos-kernel/src/id_index.rs:88-100 | burying a key keeps all other bindings; the key is gone exactly when it was not stored twice |
| IdIndex.NextMap | neodos-kernel/src/id_index.rs:49-114 | on distinct keys every operation acts as on the map, and leaves them distinct exactly unless it updates a key behind a tombstone without growth |
| IdIndex.LoadBound | neodos-kernel/src/id_index.rs:60-66 | in every run the non-empty slots stay under three quarters and an empty slot exists |
| IdIndex.GrowsIff | neodos-kernel/src/id_index.rs:60-66 | in every run the capacity starts with 16 and doubles exactly on an insertion that finds the non-empty slots, with one more, at three quarters or above |
| IdIndex.InsertThenGet | neodos-kernel/src/id_index.rs:49-85 | in every run a lookup right after an insertion of its key finds the value, even with updates past tombstones |
| IdIndex.CountTells | neodos-kernel/src/id_index.rs:36 | if nothing was misplaced before, an operation answers, entry count included, as the map does exactly when it misplaces nothing |
| IdIndex.ActsAsMapIff | neodos-kernel/src/id_index.rs:49-114 | a run of legal operations, for any hash function, is indistinguishable from a finite map exactly when no operation of it updates a key behind a tombstone in the table reached by then without growing it |
| IdIndex.FreshActsAsMap | neodos-kernel/src/id_index.rs:49-114 | so whenever each inserted key is absent from the map or the table has no tombstone then |
| IdIndex.Run | neodos-kernel/src/id_index.rs:49-114 | the class, run on any legal operations, shows a caller exactly what the table as a value shows: replies, length, load and capacity after each |
| IdIndex.Resurfaces | neodos-kernel/src/id_index.rs:68-100 | a key updated into the tombstone in front of it and removed is found again with its old value |
| IdIndex.StaleCopy | neodos-kernel/src/id_index.rs:68-100 | the same as a run of five operations, for any two keys with one home slot |
| IdIndex.StaleCopyInKernel | neodos-kernel/src/id_index.rs:42-45 | the same with the kernel's own hash and the keys 2 and 7 |
| Lzss.Search | libnlt/src/lzss.rs:58-79 | the bounded walk along a hash chain ends, and what it finds really occurs at that distance |
| Lzss.TokenAt | libnlt/src/lzss.rs:52-114 | the token chosen at a position stands for the bytes there |
| LzssSearch.TokenIsBest | libnlt/src/lzss.rs:58-79 | the match chosen is the longest, and of equally long ones the nearest, among the 32 nearest earlier positions with the same hash, each measured up to 18 bytes; a literal is chosen exactly when none of them agrees for three bytes |
| Lzss.CommonLength | libnlt/src/lzss.rs:65-69 | the common length loop measures a real repetition, no longer than a match may be |
| Lzss.FindMatch | libnlt/src/lzss.rs:53-79 | the loop over head and chain arrays finds what the search over all earlier positions with the same hash finds |
| Lzss.LinkAll | libnlt/src/lzss.rs:80-108 | linking the covered positions keeps the chain arrays describing all earlier positions |
| Lzss.FindToken | libnlt/src/lzss.rs:52-114 | the token of the loop is the one the parse chooses |
| Lzss.Emit | libnlt/src/lzss.rs:85-120 | one token is written behind its flag bit, opening a flag byte for every eight |
| Lzss.Finish | libnlt/src/lzss.rs:123-127 | storing the last, possibly partial flag byte completes the encoding |
| Lzss.CompressTokens | libnlt/src/lzss.rs:31-128 | the output is the encoding of the greedy parse and stays within one byte in eight of overhead |
| Lzss.Compress | libnlt/src/lzss.rs:31-128 | none exactly for inputs over 16384 bytes or a buffer under the bound; else the encoding of the parse, at most src + ceil(src/8) bytes, nothing written behind it |
| Lzss.InflateEncode | libnlt/src/lzss.rs:133-177 | decoding an encoded token list runs the tokens, whatever they are and wherever the last flag group ends |
| Lzss.CopyBackRepeats | libnlt/src/lzss.rs:165-172 | copying from `off` bytes back reproduces the source exactly when it repeats at that distance, overlap included |
| Lzss.RoundTrip | libnlt/src/lzss.rs:31-177 | decompressing a compressed input gives it back exactly when every match of its parse survives the 12-bit offset and the output has room, for every input |
| Lzss.ShortRoundTrip | libnlt/src/lzss.rs:31-177 | every input of at most 4096 bytes comes back |
| Lzss.CopyMatch | libnlt/src/lzss.rs:165-172 | the byte loop in the buffer does that copy and touches nothing else |
| Lzss.ReadToken | libnlt/src/lzss.rs:144-173 | one token is read and executed in the buffer, or refused, as specified |
| Lzss.ReadGroup | libnlt/src/lzss.rs:138-174 | a flag byte and its up to eight tokens are decoded as specified |
| Lzss.Decompress | libnlt/src/lzss.rs:133-177 | the buffer holds exactly what decoding gives, or failure where decoding fails |
| Lzss.FarRepeatLost | libnlt/src/lzss.rs:93 | a 4099-byte input that the compressor accepts and the decompressor does not give back |
| Calendar.DateRoundTrip | libntp/src/lib.rs:224-245 | every Gregorian date of every integer year survives conversion to a day number and back |
| Calendar.DayRoundTrip | libntp/src/lib.rs:224-245 | every integer day number converts to a valid date and back |
| Calendar.DistinctDays | libntp/src/lib.rs:224-231 | two dates have one day number exactly when they are the same |
| Calendar.CountsDays | libntp/src/lib.rs:224-231 | the next date has the next number, and 1970-01-01 has 0 |
| Calendar.YearOfDay | libntp/src/lib.rs:238 | the year formula finds the year of the era from a day of the era |
| Calendar.MonthOfDay | libntp/src/lib.rs:241 | the month formula finds the month from a day of the March-based year |
| Calendar.CivilOfPlace | libntp/src/lib.rs:234-245 | the inverse finds era, year, month and day of any day |
| Calendar.YearFrom | libntp/src/lib.rs:256 | a date lies in or after a year exactly when its day number is not before that year's first |
| Calendar.SurvivesIffValid | libntp/src/lib.rs:290-294 | year, month and day survive the conversion to a day number and back exactly when they are a date |
| Calendar.AcceptsCalendar | libntp/src/lib.rs:280-295 | validation accepts exactly the dates of the Gregorian calendar with hour, minute and second in range, 60 included |
| Calendar.UtcRange | libntp/src/lib.rs:252-258 | a time converts exactly from 1970 through 2069 |
| Calendar.UtcRoundTrip | libntp/src/lib.rs:252-277 | a time that converts comes back exactly from 2000-01-01 on |
| Calendar.DateTimeRoundTrip | libntp/src/lib.rs:252-295 | a valid timestamp survives exactly when its year is under 70 and its second under 60 |
| Crc.ShiftOut | libnlt/src/lib.rs:331-337 | eight turns of the inner loop are eight shifts of the register |
| Crc.Compute | libnlt/src/lib.rs:327-340 | the two loops compute the checksum |
| CrcDivision.CrcIsRemainder | libnlt/src/lib.rs:327-340 | for every message the complement of the checksum, lowest bit first, is the remainder of its bits followed by 32 zeros, with ones added to the first 32, divided over GF(2) by the IEEE 802.3 generator 0x04C11DB7; nothing else is |
| CrcDivision.RemainderUnique | libnlt/src/lib.rs:327-340 | such a division has one quotient and one remainder |
| CrcDivision.FeedDivides | libnlt/src/lib.rs:329-338 | after every message the register is the remainder of what was fed, by the polynomial behind a leading term |
| CrcDivision.PolynomialIsGenerator | libnlt/src/lib.rs:333 | the constant in the code holds the coefficients of that generator, highest in its lowest bit |
| CrcCheck.TurnIsShift | libnlt/src/lib.rs:331-337 | a turn of the inner loop on a machine word is a shift of the register |
| CrcCheck.CheckValue | libnlt/src/lib.rs:459-463 | the check value of the digits 1 to 9 is 0xCBF43926 |
| Crc.RegisterIsFeed | libnlt/src/lib.rs:329-338 | adding a byte and shifting eight times is feeding its bits one by one |
| Crc.ChangeDetected | libnlt/src/lib.rs:327-340 | two streams that differ within 32 consecutive bits leave different registers, whatever comes before and after |
| Crc.BurstDetected | libnlt/src/lib.rs:327-340 | messages of one length that differ within 32 consecutive bits have different checksums |
| Crc.FourBytesDetected | neodos-kernel/src/fs/crc32.rs:3-16 | messages of one length that differ within four consecutive bytes have different checksums |
| Crc.BurstUndetected | libnlt/src/lib.rs:327-340 | 32 bits are the limit: every message has, for every place of 33 consecutive bits in it, another of its length and checksum that differs there only |
| Crc.Crc32Bound | libnlt/src/lib.rs:327-340 | the checksum fits 32 bits |
| Utf16.PutUtf8 | libnlt/src/utf16.rs:70-90 | one to four bytes for every scalar value |
| Utf16.PutIsUtf8 | libnlt/src/utf16.rs:70-90 | those bytes are the UTF-8 form of section 3 of RFC 3629 |
| Utf16.Utf8Unique | libnlt/src/utf16.rs:70-90 | no other bytes are |
| Utf16.Next | libnlt/src/utf16.rs:27-56 | a step of the reader advances by one unit or one surrogate pair and stays in the data |
| Utf16.ScalarsIff | libnlt/src/utf16.rs:38-68 | the reader accepts a position, with a given result, exactly when the UTF-16LE form of those non-zero scalar values and a zero unit stand there; unpaired surrogates and missing terminators are refused |
| Utf16.Utf8Spells | libnlt/src/utf16.rs:38-68 | what is written for a string is its characters' UTF-8 forms in order |
| Utf16.SpellingUnique | libnlt/src/utf16.rs:38-68 | and nothing else is |
| Utf16.TranscodeOne | libnlt/src/utf16.rs:38-68 | succeeds exactly when the string is well formed and fits, and then writes exactly its UTF-8 form and nothing beside it |
| Utf16Rewrite.RewriteLayout | libnlt/src/utf16.rs:126-175 | every entry keeps its place, id and flags, and its new offset is where its transcoded bytes are |
| Utf16Rewrite.FormInGroup | libnlt/src/utf16.rs:143-166 | in a rewritten plural group every form is where its own offset byte says, and ends where the next form, or the group, does |
| Utf16Rewrite.RewritePlural | libnlt/src/utf16.rs:126-175 | so every form of every plural entry, transcoded, is found in the rewritten payload behind the entry's new offset |
| Utf16Rewrite.RewriteConsecutive | libnlt/src/utf16.rs:126-175 | the entries' byte ranges follow one another without gap or overlap up to the end |
| Utf16Rewrite.PutPlural | libnlt/src/utf16.rs:143-166 | a plural group is rewritten as count, one-byte offsets and forms, or refused where an offset does not fit a byte |
| Utf16Rewrite.PluralFlag | libnlt/src/utf16.rs:143 | an entry is a plural group exactly when its lowest flag is set |
| Utf16Rewrite.PutEntry | libnlt/src/utf16.rs:141-172 | one turn of the loop rewrites one entry and its index slot |
| Utf16Rewrite.RewriteIndexUtf16 | libnlt/src/utf16.rs:126-175 | succeeds exactly when every entry can be transcoded and all fit, with exactly the specified bytes |
| NltIndex.RdLe32 | libnlt/src/lib.rs:147-152 | a little-endian field reads back as written |
| NltIndex.FieldIff | libnlt/src/lib.rs:147-152 | a field reads as a number exactly when it holds that number's four bytes |
| NltIndex.ReadIndexBytes | libnlt/src/lib.rs:256-275 | a written index reads back entry by entry |
| NltIndex.ReadEntryV2 | libnlt/src/lib.rs:256-275 | an entry of a version 2 index is eight bytes and has no flags |
| NltIndex.WriteIndexV3 | libnlt/src/lib.rs:277-282 | writing an entry changes its twelve bytes only |
| NltIndex.SearchIsScan | libnlt/src/lib.rs:289-306 | on a sorted index that fits, binary search finds exactly what a linear scan finds |
| NltIndex.FindEntry | libnlt/src/lib.rs:289-306 | the loop is that search on every payload, also an unsorted or truncated one |
| NltCompile.ParseIff | libnlt/src/lib.rs:158-243 | a header is accepted, with given fields, exactly when the file starts with a version 2 or 3 header that says them and every block it names fits the file |
| Nlt.LookupIsScan | libnlt/src/lib.rs:309-322 | on a sorted index, lookup is a linear scan for the id, then reading its string |
| Nlt.ZeroFound | libnlt/src/lib.rs:309-316 | a zero-terminated string is read up to its terminator |
| Nlt.HeaderOnly | libnlt/src/lib.rs:189-239 | a version 3 header is read from the first 64 bytes alone |
| Nlt.DecodedRegion | libnlt/src/lib.rs:425-443 | a decoded table has a region block exactly when its header flags one and gives it a size; it is the file's block at the offset named, and there was room for it behind the payload |
| Nlt.CorruptionDetected | libnlt/src/lib.rs:386-412 | a decodable file stored uncompressed behind its header no longer decodes once its payload is changed within four consecutive bytes |
| Nlt.RewrittenNoZero | libnlt/src/utf16.rs:126-175 | the strings of a rewritten table contain no zero byte |
| Nlt.RewrittenUnreadable | libnlt/src/utf16.rs:167-172 | so every lookup in a rewritten table fails, for every id |
| NltPlural.SelectedIs | libnlt/src/plural.rs:70-94 | the form shown is the first non-empty of three: the category's, the one for other counts, and one last resort; no other slot is looked at |
| NltPlural.OneOrOther | libnlt/src/plural.rs:60-66 | in every language not named otherwise, English among them, slot 1 for a count of one and slot 5 for all others |
| NltPlural.NoneCountsAsOne | libnlt/src/plural.rs:50-56 | in languages 3 and 7 slot 1 for none and one, slot 5 for all others |
| NltPlural.OneForm | libnlt/src/plural.rs:58 | in languages 12, 13, 22 and 23 slot 5 for every count |
| NltPlural.ByLastDigits | libnlt/src/plural.rs:36-48 | in languages 14, 17 and 24 the last two digits decide: slot 1 for those that end in 1 but 11, slot 3 for those that end in 2, 3 or 4 but 12, 13 and 14, slot 4 for all others, so slot 5 for none |
| NltPlural.ThreeThenLastDigits | libnlt/src/plural.rs:22-34 | in language 15 a slot each for 0, 1 and 2, then slot 3 for last digits 03 to 10 and slot 4 for all others |
| NltPlural.ShownIff | libnlt/src/plural.rs:70-94 | so a group shows something exactly when one of those three slots does |
| NltPlural.SlotNotTried | libnlt/src/plural.rs:70-94 | a group with a string in another slot that shows nothing |
| NltPlural.ReadStr | libnlt/src/lib.rs:309-316 | the loop finds the string up to its terminator, or nothing where there is none or it is not UTF-8 |
| NltPlural.Select | libnlt/src/plural.rs:70-94 | the loop over the slots shows that form, on every payload |
| NltPlural.RewrittenShowsNothing | libnlt/src/utf16.rs:143-172 | in a rewritten UTF-16 table nothing is shown for any id and any count |
| Nlt.UnpackInto | libnlt/src/lib.rs:395-407 | the payload is taken as stored or decompressed into the scratch buffer, and refused when its size is not the announced one |
| Nlt.CheckInto | libnlt/src/lib.rs:409-423 | the checksum is compared for version 3 only; the payload is copied or rewritten into the output, or refused for want of room |
| Nlt.AddRegionInto | libnlt/src/lib.rs:425-443 | the region block is copied behind the payload when flagged and non-empty, or the file is refused |
| Nlt.DecodeInto | libnlt/src/lib.rs:386-444 | the buffers hold exactly the decoded payload and region, or failure where decoding fails |
| NltCompile.BuildPayload | tools/nltc/src/main.rs:187-219 | the index patched entry by entry in front of the growing strings and plural groups ends as index and strings side by side, or is refused exactly when a form of a group starts past byte 255 |
| NltCompile.BuildGroup | tools/nltc/src/main.rs:199-215 | the loop over six forms builds count, offsets and terminated forms, or refuses |
| NltCompile.FormStands | tools/nltc/src/main.rs:199-215 | every form of a compiled group stands, with its terminator, where the group says |
| NltCompile.GroupShows | libnlt/src/plural.rs:70-94 | a compiled group shows for every language and count the category's form, or where that is empty the one for other counts |
| NltCompile.OneOrOtherShown | libnlt/src/plural.rs:60-94 | in English and its like a compiled group shows its second form for one and its sixth for every other count |
| NltCompile.LookupText | libnlt/src/lib.rs:309-322 | a compiled payload gives back every string under its id, up to a zero character in it |
| NltCompile.LookupAbsent | libnlt/src/lib.rs:309-322 | and nothing under any other id |
| NltCompile.IndexIsSorted | tools/nltc/src/main.rs:144-149 | the compiled index is sorted by id and holds the ids of the texts |
| NltCompile.ParseWritten | libnlt/src/lib.rs:189-239 | a written header reads back as it was, and is accepted exactly when its blocks fit the file |
| NltCompile.ParseBuilt | tools/nltc/src/main.rs:291-309 | the header of a compiled file is accepted and reads back |
| NltCompile.FileStart | tools/nltc/src/main.rs:291-294 | a compiled file starts with the magic, version 3 and header size 64, and keeps eight bytes zero |
| NltCompile.HeaderSays | tools/nltc/src/main.rs:244-309 | the header flags compression exactly when it was asked for, allowed up to 16384 bytes and made the payload shorter, UTF-16, right-to-left for languages 15, 26, 27 and 28, signature and region as they are |
| NltCompile.PluralNotFlagged | tools/nltc/src/main.rs:246-276 | the header flag for plural groups is never set, so it is right exactly for tables without one |
| NltCompile.BlocksStand | tools/nltc/src/main.rs:271-317 | stored payload, region and signature stand in the file where the header says, up to its end |
| NltCompile.RegionBuilt | tools/nltc/src/main.rs:271-309 | the region block of a compiled file is found behind the stored payload |
| NltCompile.UnpackBuilt | tools/nltc/src/main.rs:254-269 | the stored form unpacks to the payload exactly when compression was not kept, or no match was lost and the scratch buffer has room |
| NltCompile.DecodeBuilt | libnlt/src/lib.rs:386-444 | decoding undoes compiling exactly when the buffers have room and no match of a compressed payload is lost |
| NltCompile.CompressionTransparent | libnlt/src/lib.rs:395-407 | a payload of at most 4096 bytes decodes to the same payload and region, compressed or not |
| NltCompile.TableRoundTrip | libnlt/src/lib.rs:344-444 | compile, store, parse, unpack, check, look up: every string's id gives its own text up to a zero character, every plural id gives for every count the form it should, any other id nothing |
| NltCompile.EnglishRoundTrip | libnlt/src/lib.rs:344-444 | so does an English table from file to lookup |
| NltCompile.SmallIsWritable | tools/nltc/src/main.rs:291-309 | sorted 32-bit ids, plural groups that fit and a total size under 2^32 are all a table needs to be written, compressed or not |
| NltCompile.BuiltCorruptionDetected | libnlt/src/lib.rs:409-412 | a compiled, uncompressed file decodes, and no longer does once its payload is changed within four consecutive bytes |
| NltCompile.WideForm | libnlt/src/utf16.rs:38-68 | a string compiled as UTF-16 is transcoded on load to its UTF-8 form, up to a zero character |
| NltCompile.WideRewrites | libnlt/src/utf16.rs:126-175 | a payload compiled as UTF-16 is rewritten exactly when the new offsets of every plural group fit their bytes and index and UTF-8 texts without terminators fit the buffer |
| NltCompile.WideTableUnreadable | libnlt/src/utf16.rs:167-172 | under that condition a table compiled as UTF-16 decodes, and then nothing is found or shown for any id |
| NltCompile.WideTableRefused | libnlt/src/utf16.rs:158-161 | where the new offsets do not fit, the table compiles and every decoding of it fails |
| NltCompile.WideGroupTooLong | libnlt/src/utf16.rs:158-161 | a group of that kind: 90 characters of three bytes each in UTF-8 |
| E1000.InitInv | drivers/e1000/src/lib.rs:332-352 | the ring as set up satisfies the invariant |
| E1000.DriverKeeps | drivers/e1000/src/lib.rs:427-473 | every single access of a poll keeps the invariant of counters, descriptors, buffers and hand-over |
| E1000.ArriveKeeps | drivers/e1000/src/lib.rs:427-473 | so does a frame's arrival, taken on only between head and tail |
| E1000.ControllerKeeps | drivers/e1000/src/lib.rs:427-473 | so does every byte, write-back and head move of the controller |
| E1000.RunKeeps | drivers/e1000/src/lib.rs:427-473 | the invariant holds in every interleaving |
| E1000.TailBehindCursor | drivers/e1000/src/lib.rs:467-471 | in every interleaving, between polls tail is one slot behind the cursor |
| E1000.ControllerOwnsItsSlot | drivers/e1000/src/lib.rs:445-466 | the controller never writes a descriptor marked done, nor the one the driver works on |
| E1000.DeliveredInOrder | drivers/e1000/src/lib.rs:427-473 | the frames handed over are those of valid length among the accepted ones the driver has come to |
| E1000.DeliveredAre | drivers/e1000/src/lib.rs:448-473 | in every interleaving they are exactly the accepted frames of 1 to 2048 bytes, by increasing positions, each once |
| E1000.NothingLeftBehind | drivers/e1000/src/lib.rs:445-447 | when a poll finds nothing, every accepted frame of valid length has been handed over |
| E1000.TakenOnIsAccepted | drivers/e1000/src/lib.rs:332-352 | the frames written back, and the one being written, are those taken on, in order of arrival |
| E1000.FrameCompletes | drivers/e1000/src/lib.rs:427-473 | left alone, the controller writes a frame back after its bytes, as far as the buffer goes, and moves on |
| E1000.FullMeansFull | drivers/e1000/src/lib.rs:339-340 | a frame is turned away exactly when 31 descriptors hold frames not given back |
| E1000.PollIsSteps | drivers/e1000/src/lib.rs:427-473 | the single accesses of a poll add up to the whole poll, which so is one of the interleaved runs |
| E1000.Nic.constructor | drivers/e1000/src/lib.rs:332-352 | set-up leaves head 0, tail 31 and every descriptor empty, whatever was there |
| E1000.Nic.Poll | drivers/e1000/src/lib.rs:427-473 | the buffer receives the oldest waiting frame exactly if it has 1 to 2048 bytes, and the shared state becomes that of the atomic poll |
| Apc.StepKeeps | neodos-kernel/src/apc/mod.rs:67-127 | every locked section keeps queue bounds, the pending flag, and accepted = taken + queued |
| Apc.RunKeeps | neodos-kernel/src/apc/mod.rs:67-242 | so they hold in every order of sections |
| Apc.AcceptedWakes | neodos-kernel/src/apc/mod.rs:95-127 | an accepted user call takes its thread out of the alertable wait, and it stays out until it begins to wait again, whatever happens |
| Apc.WaitKeepsQueue | neodos-kernel/src/apc/mod.rs:357-371 | while a thread stays in the wait it began, its user queue is the one it began with less what it took, so it waits with calls queued exactly when there were more than it took |
| Apc.MissedCalls | neodos-kernel/src/syscall/handlers.rs:530-541 | calls that come in between the caller's look and the start of its wait are missed: it serves some after the wait began, and waits on with the others queued |
| Apc.ResultAgrees | neodos-kernel/src/apc/mod.rs:357-371 | in every run, what the start of the wait returns tells whether a call ended the wait exactly when the section that ended it queued a user call and found room; otherwise the scheduler ended it |
| Apc.WrongResult | neodos-kernel/src/apc/mod.rs:355-371 | a wait that the scheduler ends is reported as ended by a call |
| Apc.QueueKernelApc | neodos-kernel/src/apc/mod.rs:67-90 | accepted exactly when the thread exists and under 64 calls are queued, at the back, with the flag raised; no other thread changes |
| Apc.QueueUserApc | neodos-kernel/src/apc/mod.rs:95-127 | the same for user calls; an accepted one leaves the thread in no alertable wait |
| Apc.KThread.ClearPending | neodos-kernel/src/apc/mod.rs:190-201 | the flag goes down only when both queues are empty |
| Apc.KThread.DispatchKernelApcs | neodos-kernel/src/apc/mod.rs:165-203 | whatever others do during the calls, the calls made are those taken, in order, the ones queued at the start first; the steps are one run of the sections |
| Apc.KThread.DispatchOneUserApc | neodos-kernel/src/apc/mod.rs:207-241 | the oldest user call is made, exactly when there is one, whatever others do during it and before the flag is looked at |
| Apc.KThread.DispatchOnSyscallReturn | neodos-kernel/src/apc/mod.rs:307-319 | the kernel calls taken, then at most one user call, the oldest, whatever others do meanwhile |
| Apc.KThread.BlockCurrentAlertable | neodos-kernel/src/apc/mod.rs:357-371 | the thread is blocked in the alertable wait, its queues as they were, and the result is true |
| Apc.KThread.WaitAlertable | neodos-kernel/src/syscall/handlers.rs:530-541 | whatever others do in between, the result is 1 exactly when one call was made, the oldest not yet taken, and 0 only with no user call accepted and not taken |
| Irp.DoMoves | neodos-kernel/src/apc/mod.rs:253-291 | every step but an allocation only moves a callback from one place to another |
| Irp.AllocMoves | neodos-kernel/src/irp/mod.rs:181-204 | an allocation adds its own callback and loses sight of none |
| Irp.AllocationsCounted | neodos-kernel/src/irp/mod.rs:181-204 | every allocation takes one number, whether it finds a free slot or not |
| Irp.OnePlaceEach | neodos-kernel/src/apc/mod.rs:246-291 | in every run each registered callback is in exactly one place: registered, under way, queued, in hand, called or dropped |
| Irp.CalledWereRegistered | neodos-kernel/src/apc/mod.rs:285-291 | in every run a callback that is called was registered |
| Irp.CalledAtMostOnce | neodos-kernel/src/apc/mod.rs:285-291 | and is called once |
| Irp.QueuesKept | neodos-kernel/src/apc/mod.rs:253-281 | completions keep every thread's queues in order and in bounds |
| Irp.DroppedIff | neodos-kernel/src/apc/mod.rs:267-281 | in every run a callback is dropped exactly when some step found its thread missing or its queue full, turned its work away, or gave away the free slot it was still in |
| Irp.DroppedNeverCalled | neodos-kernel/src/apc/mod.rs:267-281 | a dropped callback is never called, however the run goes on |
| Irp.AlwaysPlaced | neodos-kernel/src/irp/mod.rs:95-131 | a request in use is in the slot of its number |
| Irp.FreeSparesOthers | neodos-kernel/src/irp/mod.rs:118-121 | freeing a number spares every other live request exactly when its slot holds no other |
| Irp.StaleCompletion | neodos-kernel/src/irp/mod.rs:118-121 | a run from the start in which completing request 1 again frees request 65 and strands its callback |
| DnsName.HaltsIff | libdns/src/wire.rs:34-69 | the decoder's walk ends exactly when it ends within as many moves as there are bytes |
| DnsName.SelfPointer | libdns/src/wire.rs:48-58 | a pointer to itself never ends |
| DnsName.BackIsNotEnough | libdns/src/wire.rs:48-58 | nor does a pointer back to a label in front of it |
| DnsName.CollectEnough | libdns/src/wire.rs:34-69 | a walk that ends finds the same labels with any larger bound |
| DnsName.ItemIff | libdns/src/wire.rs:35-68 | the decoder sees an end, a pointer or a label exactly where a zero, that pointer's two bytes or that label's length and text stand, and so nothing elsewhere |
| DnsName.DecodeName | libdns/src/wire.rs:28-78 | on every packet: without end exactly when the walk has none, else the labels joined by dots and the end offset, or malformed |
| DnsName.EncodeName | libdns/src/wire.rs:12-23 | non-empty parts between dots, each behind its length, then a zero |
| DnsName.DecodesLabels | libdns/src/wire.rs:28-78 | labels of 1 to 63 bytes and a zero decode to those labels, at any offset of any packet |
| DnsName.DecodesPointer | libdns/src/wire.rs:48-58 | labels and a pointer decode to those labels and the ones pointed at, end two bytes after the pointer starts, and the walk ends exactly when that of the target does |
| DnsName.JoinSplit | libdns/src/wire.rs:70-77 | joining the parts of a name gives the name |
| DnsName.ValidateHostname | libdns/src/host.rs:9-35 | accepts exactly names of at most 253 bytes whose labels, but for one final dot, are non-empty, at most 63 long, of letters, digits, hyphens and underscores, with no hyphen at either end |
| DnsName.HostNameRoundTrip | libdns/src/wire.rs:12-78 | every accepted host name, encoded at any offset of any packet, decodes to itself without the final dot and to the offset just past it |
| DnsAnswers.First | libdns/src/wire.rs:216-219 | the alias followed is the first record of that owner in packet order |
| DnsAnswers.MinTtl | libdns/src/wire.rs:206-208 | the smallest time to live among the name's addresses |
| DnsAnswers.ChosenIsFirst | libdns/src/wire.rs:201-228 | the name chosen is the first along the chain that owns an address, among the first ten |
| DnsAnswers.AddressesOwned | libdns/src/wire.rs:230-232 | there are addresses exactly when the name owns a record |
| DnsAnswers.AddressesAre | libdns/src/wire.rs:202-210 | the addresses of a name are those of exactly the records it owns, by increasing positions, whatever other records are among them |
| DnsAnswers.NothingNew | libdns/src/wire.rs:221-227 | a chain that comes back to a name met before finds nothing more, so the list of names seen changes no result |
| DnsAnswers.Gather | libdns/src/wire.rs:202-210 | all addresses of one name in packet order, with their smallest time to live |
| DnsAnswers.FindAlias | libdns/src/wire.rs:216-219 | the loop finds that first alias |
| DnsAnswers.SelectAnswer | libdns/src/wire.rs:193-237 | the loop with its list of names seen returns what the chain without it gives, with time to live 0 for 2^32 - 1 |
| DnsReply.HeaderRead | libdns/src/wire.rs:107-133 | the header of an untruncated reply without error to the expected query is accepted, with its counts |
| DnsReply.NameRead | libdns/src/wire.rs:28-78 | a name written in labels, with or without a pointer to a name that decodes, is read as what it stands for |
| DnsReply.RecordRead | libdns/src/wire.rs:154-190 | an address, alias or other record written anywhere in a packet is read as that record, up to where it ends |
| DnsReply.SectionRead | libdns/src/wire.rs:154-191 | so is a whole answer section |
| DnsReply.ReplyRead | libdns/src/wire.rs:106-237 | a reply with any records, names spelled out or compressed in any way that decodes, is parsed to the end and gives exactly what the alias chain of its question selects |
| DnsReply.UsualReply | libdns/src/wire.rs:106-237 | a reply that lists addresses for the name asked for, written as pointers to the question, gives exactly those addresses in order |
| DnsReply.RefusalsRead | libdns/src/wire.rs:107-131 | by the header fields of a packet: another number or no response is malformed, a truncated response is refused as such, response code 3 is non-existence, every other code but 0 a server failure |
| DnsSelection.AnswersAlong | libdns/src/wire.rs:193-237 | for records of any kinds and owners: where following the first alias record of each name leads, within ten names, to one that owns addresses, the answer is exactly its addresses in packet order and their smallest time to live, 0 for 2^32 - 1 |
| DnsSelection.NoAnswer | libdns/src/wire.rs:193-232 | there is no answer exactly when no such path leads to addresses |
| DnsSelection.ReplyGives | libdns/src/wire.rs:106-237 | so it is from the packet on |
| DnsReply.QueryRead | libdns/src/wire.rs:86-102 | read as a packet, the query for a host name carries its number and asks for the addresses of that name without its final dot, and nothing else; it is no reply to itself |
| DnsReply.AnswerHasId | libdns/src/wire.rs:106-117 | a packet that gives an answer is a reply and carries the number it was read for |
| DnsReply.ReadQuestions | libdns/src/wire.rs:138-149 | on every packet: without end exactly when a name it gets to has none, else the end of the questions and the first name, or malformed |
| DnsReply.ReadRecord | libdns/src/wire.rs:155-190 | one turn of the answer loop on every packet: without end, malformed, or the record and where it ends |
| DnsReply.ReadRecords | libdns/src/wire.rs:151-191 | on every packet: without end, malformed, or the addresses and the aliases of the section in packet order |
| DnsReply.ParseResponse | libdns/src/wire.rs:106-237 | on every packet: stuck exactly when a name the parser gets to has no end, else what the packet says |
| DnsResolve.NextId | libdns/src/resolve.rs:10-17 | query numbers are 16 bits and never 0 |
| DnsResolve.AttemptTrace | libdns/src/resolve.rs:33-48 | every exchange with a server but the last ended in a timeout or as unreachable, and a last one that did so is the one numbered retries + 1 |
| DnsResolve.SearchTrace | libdns/src/resolve.rs:55-82 | for every transport: one block of exchanges per listed server other than 0.0.0.0 in list order, the next reached only after a failure other than non-existence, the result that of the last exchange |
| DnsResolve.ExchangesBounded | libdns/src/resolve.rs:55-82 | only listed servers other than 0.0.0.0 are asked, success, non-existence or a reply that never ends comes last if at all, and there are at most retries + 1 exchanges per such entry |
| DnsResolve.SearchGenuine | libdns/src/resolve.rs:10-48 | every exchange of every run sends the query for the host name under its own number, never 0, and its outcome is what reading the reply for that number comes to |
| DnsResolve.FoundIff | libdns/src/resolve.rs:20-82 | an answer is found from a server exactly when the last exchange went to that server and its reply, which carries the number of that query, says that answer |
| DnsResolve.LostThenAnswered | libdns/src/resolve.rs:33-82 | when the first server that may be asked loses the first queries, no more than may be repeated, by timeout or as unreachable, and replies to the next with addresses for the name, exactly those are found from it |
| DnsResolve.Resolver.TakeId | libdns/src/resolve.rs:10-17 | the counter is advanced, twice past 0 |
| DnsResolve.Resolver.QueryServer | libdns/src/resolve.rs:20-30 | the query is built with the next number, sent, and its reply read for that number |
| DnsResolve.Resolver.QueryServerWithRetries | libdns/src/resolve.rs:33-48 | the retry loop makes exactly the specified attempts |
| DnsResolve.Resolver.ResolveWithServers | libdns/src/resolve.rs:55-82 | the server loop makes exactly the specified search; an invalid name sends nothing |
| Pci.NeverFull | drivers/pci/src/lib.rs:247-252 | a list of distinct bus numbers fits 256 entries and has room for any bus not in it, so the capacity check never drops one |
| Pci.DevsFound | drivers/pci/src/lib.rs:188-260 | scanning a bus adds exactly the buses behind its bridges |
| Pci.EdgeIff | drivers/pci/src/lib.rs:192-238 | one bus leads to another exactly when a function of it, device 0 to 31 and function 0 to 7, others than 0 behind bit 7 of the header type, is of class 6, subclass 4 and names the other, not 0 |
| Pci.AllCounted | drivers/pci/src/lib.rs:192-234 | the count over buses is the number of their functions in that sense |
| Pci.TurnKeeps | drivers/pci/src/lib.rs:286-290 | a turn keeps the list distinct, reachable, and closed over the buses scanned |
| Pci.DoneIsReachable | drivers/pci/src/lib.rs:286-290 | a finished list holds exactly the buses reachable from bus 0 |
| Pci.Enqueue | drivers/pci/src/lib.rs:236-253 | a bus is appended exactly when it is not 0 and not in the list |
| Pci.ScanFunction | drivers/pci/src/lib.rs:202-254 | one function is counted if it answers, and its bus enqueued if it is a bridge |
| Pci.ScanDevice | drivers/pci/src/lib.rs:192-256 | all functions of a device, only function 0 unless it has several |
| Pci.ScanBus | drivers/pci/src/lib.rs:188-260 | all devices of a bus are counted and their bridges followed |
| Pci.Discover | drivers/pci/src/lib.rs:279-290 | the discovery ends, scans exactly the buses reachable from bus 0, each once, and the total is the number of their functions cut to 16 bits |
| IntMath.StepAbove | libmath-nxl/src/math.rs:48-49 | Newton's step never falls below the root |
| IntMath.RootUnique | libmath-nxl/src/math.rs:43-52 | a number has one integer root |
| IntMath.SqrtInt | libmath-nxl/src/math.rs:43-52 | the floor of the square root of every 64-bit number, with no value on the way outside 64 bits |
| IntMath.PowWrap | libmath-nxl/src/math.rs:37 | cutting the base to 64 bits does not change the cut power |
| IntMath.PowLaws | libmath-nxl/src/math.rs:31-41 | the power is 1 for exponent 0, the base for 1, and turns sums of exponents into products |
| IntMath.PowInt | libmath-nxl/src/math.rs:31-41 | the power, cut to a signed 64-bit number, for every base and exponent |

## Left out

- Irp.OnePlaceEach: callbacks are followed as allocation numbers; what a callback does, and requests' status, buffer and waiting process, are not modelled.
- Lzss.FindMatch: the compressor's `head` and `prev` arrays are sequences, and the break on a candidate at or past the position is part of the loop condition; update in place of those two tables is not captured.
- E1000.Nic.Poll: the undisturbed poll; the interleaved one is the state machine. The link-state report every 512 polls is not modelled.
- Apc.KThread.DispatchKernelApcs: what others do between two sections of a thread is queueing calls and scheduling it, as often and in any order; other changes of the thread meanwhile are covered by the sections in any order (`Apc.RunKeeps`), not by this method.
- DnsName.DecodeName: `Never` stands for code that goes round for ever; it is returned after as many turns as there are bytes, where the walk has no end (`DnsName.HaltsIff`).
- DnsResolve.Resolver.QueryServer: a transport delivers at most 512 bytes, the size of the reply buffer, or an error; sockets and timing are inside it.
- UTF-8 validation in the DNS decoder is a parameter (any predicate on label bytes that accepts host name labels); in table lookup it is the existence of scalar values with that encoding.
- Signing and verifying tables, the region block's contents, message formatting and text direction, and the compiler's reading of its source file: smaller code beside the table format.
- The transmit ring: it never looks at the hardware head, so there is no ownership to prove.
- NTP packets, clock filtering, MD5 authentication: no property of the calendar depends on them.
- The scheduler, interrupt levels and deferred procedure calls around the APC engine: a locked section is one step, and other scheduling of a thread is any change except starting an alertable wait.
- Devices appearing or vanishing during PCI discovery: the configuration space is a function.
- Floating-point functions, the registry, file systems, console and shell, storage and input drivers: not part of this model.
