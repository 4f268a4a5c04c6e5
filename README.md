# SysOpy2022 — a verified model of the exercises' sequential core

SysOpy2022 is a set of small C programs written for an operating-systems course:
thread and process rendezvous, shared-memory queues, FIFOs, pipes to external
commands, file scanners and parsers. This project is a Dafny model of the parts of
those programs that can be stated precisely. It proves what they compute, which
invariants they keep and where they differ from what they evidently intend.

One Dafny module models each program:

- `Santa` (santa.dfy, lab9): the Santa / elves / reindeer rendezvous. It is a class
  `Workshop` whose methods are the critical sections and semaphore operations,
  taken one atomic step at a time. A thread that would block is a precondition.
- `Pizzeria` (pizzeria.dfy, lab7): the shared segment of the pizzeria. It holds an
  oven slot table and a circular table queue, with the semaphores as counters.
  There is also the choice of role from the command line.
- `LibWc` (libwc.dfy, lab1/zad1): the libwc context, a growable table of optional
  results addressed by handles, and the builder of the escaped `wc` command line.
- `WcCommands` (wccommands.dfy, lab1/zad2): the command table and the loop that
  dispatches the command-line words.
- `SizedPath` (sizedpath.dfy, lab3/zad3): the capacity rounding `next_size`, the
  sized path string with push and pop, and the permission macro. It also covers
  the extension filter and the decision `process` returns for one directory entry.
- `PairSum` (pairsum.dfy, lab3/zad2): `ctz`, the binary-counter pairwise summation
  of each worker over exact reals, and the split of the samples between workers.
- `CharCount` (charcount.dfy, lab2/zad2): `interpret_char` and the loop that counts
  matching bytes and lines over the chunks read.
- `BlankLines` (blanklines.dfy, lab2/zad1): the remover of white-space-only lines.
  Its buffer scanner seeks back to a line start that lies in an earlier buffer.
- `FrameCodec` (frames.dfy, lab5/zad3): the producer's frames and the consumer's
  decoding and line placement. It proves the round trip from producer to
  consumer, including several frames coalesced into one read.
- `HashProbe` (hashprobe.dfy, lab5/zad1): the string hash, the odd-stride probe
  over a power-of-two table, and `hash_add` on a key already present.
- `MailCmd` (mailcmd.dfy, lab5/zad2): the argument dispatch, the sort command, the
  escaped `mail` command line and the message written into the pipe.
- `Pnm` (pnm.dfy, lab8): `parse_partype`, the argument check and the magic-number
  state of the Netpbm header parser.
- `Common` (common.dfy): helpers shared by several modules. These are C's
  character classes, a decimal parse standing for `strtol` and `atoi`, powers of
  two, bitwise AND and counting.

Where the model follows the code rather than the program's comments or evident
intent, the "as written" member sits next to the corrected one (see "Findings").

In lab9 the model also records a run the steps allow (`Santa.PermitOvertaking`).
`elf_sem` does not know which consultation a permit belongs to, so an elf that
arrives after a consultation can use the permits of elves that are still
blocked. The next consultation then lists that one elf three times. No local
change to the code fixes this, so it is documented rather than corrected.

## Model

| member | source | states |
|---|---|---|
| Santa.Workshop.constructor | lab9/main.c:62-70 | the context starts with both counters at 0, `elfids` zeroed, reindeer_sem and elf_sem at 0, elfslots_sem at MAXELFWAIT, every thread at the top of its loop, and the invariant holds |
| Santa.Workshop.Bounds | lab9/main.c:113-116 | under the invariant `elves` stays within 0..3 and `reindeer` within 0..9, so the write to `elfids[elves]` is in bounds |
| Santa.Workshop.SantaAcquire | lab9/main.c:74 | taking the mutex changes nothing but Santa's phase |
| Santa.Workshop.SantaSleep | lab9/main.c:77-81 | Santa waits only while fewer than 9 reindeer and fewer than 3 elves are registered; waiting changes nothing else |
| Santa.Workshop.SantaServe | lab9/main.c:83-106 | a delivery happens iff at least 9 reindeer are registered (priority over a consultation); it posts exactly 9 reindeer permits, zeroes `reindeer`, counts one delivery and leaves `elves` alone; otherwise a consultation reports the ids in `elfids`, all valid elf ids, posts exactly 3 elf permits, zeroes `elves` and leaves `elfids`, `reindeer` and the delivery count alone; the final else is unreachable; Santa exits exactly when the third delivery is done |
| Santa.Workshop.ReindeerRegister | lab9/main.c:135-142 | `reindeer` grows by exactly one, never past 9, and Santa is signalled iff it reaches 9 |
| Santa.Workshop.ReindeerConsume | lab9/main.c:143 | taking a reindeer permit decrements reindeer_sem and sends the reindeer back on vacation, nothing else |
| Santa.Workshop.ElfTakeSlot | lab9/main.c:113 | taking an admission slot decrements elfslots_sem, nothing else |
| Santa.Workshop.ElfRegister | lab9/main.c:114-122 | the index `elves` is below 3 when written, `elfids` changes only at that index, `elves` grows by one and Santa is signalled iff it reaches 3 |
| Santa.Workshop.ElfConsume | lab9/main.c:123-124 | taking an elf permit decrements elf_sem, nothing else |
| Santa.Workshop.ElfRelease | lab9/main.c:125 | the admission slot is given back (elfslots_sem + 1) only after the permit was taken |
| Santa.ElfPassOnOldPermit | lab9/main.c:111-126 | an elf admitted while permits of an earlier consultation are outstanding registers, consumes one of those permits at once and leaves its id in `elfids` |
| Santa.ThreeElvesQueued | lab9/main.c:113-121 | three elves registering from the initial state fill `elfids` with their ids and the third one signals Santa |
| Santa.FirstConsultation | lab9/main.c:89-98 | a consultation of three queued elves zeroes `elves`, posts their permits and leaves Santa ready to sleep again |
| Santa.PermitOvertaking | lab9/main.c:89-126 | a run the steps allow: elf_sem does not tie a permit to its consultation, so an elf arriving after a consultation takes two permits meant for elves still blocked and the next consultation reports that one elf three times |
| Pizzeria.Pizzeria.Setup | lab7/main.c:82-101 | every oven and table slot is -1, head, tail, `inoven` and `ontable` are 0, OVEN_CAP and TABLE_CAP are SLOTS and TABLE_AVAIL is 0 |
| Pizzeria.OccupiedFull | lab7/main.c:267-274 | a slot table with no negative slot is full, which OVEN_CAP rules out when the cook searches |
| Pizzeria.Pizzeria.OvenInsert | lab7/main.c:267-278 | the pizza goes into the lowest-index slot holding a negative value, which exists; `inoven` grows by one and no other slot or field changes |
| Pizzeria.Pizzeria.OvenRemove | lab7/main.c:282-286 | the pizza comes out of the slot given, that slot becomes -1, `inoven` drops by one and no other slot changes |
| Pizzeria.RingPut | lab7/main.c:288-291 | writing at the head of the circular table and advancing it modulo SLOTS appends to the queue |
| Pizzeria.RingGet | lab7/main.c:300-305 | the tail slot holds the oldest pizza; clearing it and advancing the tail modulo SLOTS removes exactly that pizza |
| Pizzeria.TablePutStep | lab7/main.c:288-293 | a put keeps the table invariant: `ontable` = TABLE_AVAIL = SLOTS - TABLE_CAP = queue length |
| Pizzeria.TableGetStep | lab7/main.c:300-307 | a get keeps the table invariant and reads a pizza type in 0..9 |
| Pizzeria.Pizzeria.TablePut | lab7/main.c:288-293 | the pizza is appended to the queue, the head advances modulo SLOTS, `ontable` grows by one, only the head slot changes |
| Pizzeria.Pizzeria.TableGet | lab7/main.c:300-307 | the pizza taken is the oldest on the table (FIFO) and non-negative; the tail slot becomes -1, the tail advances modulo SLOTS, `ontable` drops by one |
| Pizzeria.PizzaType | lab7/main.c:262 | a pizza type is in 0..9 |
| Pizzeria.CookPizza | lab7/main.c:260-294 | one pass of the cook leaves the oven as it was and adds its pizza at the end of the table queue |
| Pizzeria.SelectRole | lab7/main.c:327-343 | "cook" selects the cook; any single word other than "cook" and "deliv" selects the deliverer; two whole numbers >= 1 select the spawner; anything else is the usage error |
| Pizzeria.SpawnedRoles | lab7/main.c:349-354 | the words the spawner passes, "cook" and "dlv", select the two roles, while "deliv" is rejected |
| LibWc.Context.Init | lab1/zad1/libwc.c:49-57 | a new context has `len = cap = 0` and an empty results table |
| LibWc.Context.EnsureSpace | lab1/zad1/libwc.c:32-47 | it succeeds iff there was a free slot or the allocation succeeds; on success `cap > len`; the results are unchanged; capacity doubles, or becomes 4 from 0 |
| LibWc.Context.LoadResult | lab1/zad1/libwc.c:131-160 | a success returns the old `len` as the handle and appends the file contents to the results; every failure returns -1 and leaves the results and `len` as they were |
| LibWc.Context.DelResult | lab1/zad1/libwc.c:162-170 | it succeeds iff the handle is in range and not deleted; then only that entry becomes NULL, otherwise nothing changes |
| LibWc.Context.GetResult | lab1/zad1/libwc.c:175-178 | the entry stored under a valid handle |
| LibWc.DeleteTwice | lab1/zad1/libwc.h:34-37 | a second delete of the same handle always fails and changes nothing |
| LibWc.Create | lab1/zad1/libwc.c:49-57 | NULL iff the allocation fails, otherwise an empty context with the default temporary file |
| LibWc.CreateCustomAsWritten | lab1/zad1/libwc.c:58-70 | the function as written returns NULL whatever happens |
| LibWc.CreateCustom | lab1/zad1/libwc.h:16-18 | as the header describes it: NULL iff the allocation fails, otherwise an empty context with the given temporary file |
| LibWc.SafeCharsNotSpecial | lab1/zad1/libwc.c:87-92 | no character `is_arg_safe` accepts is one the shell treats specially, apart from `~` |
| LibWc.BuildCommand | lab1/zad1/libwc.c:94-122 | the buffer holds "wc >", the escaped temporary file, a space and the escaped paths, and the command plus its NUL fits in 2(\|paths\|+1) + 2\|tmpfile\| + 6 bytes |
| LibWc.PutWord | lab1/zad1/libwc.c:105-108 | the temporary file path is copied with a backslash before every unsafe character, at most two bytes per character |
| LibWc.PutPaths | lab1/zad1/libwc.c:112-122 | the paths are copied with `./` before each word-initial `-`, a backslash before each unsafe character other than space, within 2 bytes per character plus one |
| LibWc.PathCharLength | lab1/zad1/libwc.c:95-99 | one path character takes at most 2 bytes, 3 at a word start, 1 for a space, which is what the allocation size relies on |
| LibWc.EscapeWordMeaning | lab1/zad1/libwc.c:105-108 | the escaped temporary file is one shell word; quote removal gives the path without its newlines, because a backslash before a newline is a line continuation; the word undergoes tilde expansion exactly when what is left starts with `~`, which is_arg_safe leaves unescaped |
| LibWc.EscapeWordRoundTrip | lab1/zad1/libwc.c:105-108 | a temporary file path without newlines that does not start with `~` is exactly the file the shell redirects to, with no tilde expansion |
| LibWc.EscapePathsMeaning | lab1/zad1/libwc.c:112-122 | the escaped paths are quoted words separated by plain spaces; quote removal gives the paths with `./` before word-initial dashes and with their newlines removed as line continuations |
| LibWc.PathsRoundTrip | lab1/zad1/libwc.c:112-122 | paths without newlines come out of quote removal as the paths with their word-initial dashes guarded, and undergo tilde expansion exactly when one of their words begins with `~` |
| LibWc.DashGuardedNoNewline | lab1/zad1/libwc.c:114-117 | the `./` guard adds no newline |
| LibWc.NewlineExposesDash | lab1/zad1/libwc.c:112-122 | the paths "\n-n" reach wc as the word "-n", an option: the dash follows a newline, not a space, so it gets no guard, and the shell then removes the escaped newline |
| LibWc.EscapePathsTilde | lab1/zad1/libwc.c:112-122 | the escaped paths undergo tilde expansion exactly when some word of the paths, with newlines removed, begins with `~` |
| LibWc.DashGuardedNoOption | lab1/zad1/libwc.c:114-117 | after the `./` guard no word of the paths starts with `-`, so wc takes none for an option |
| WcCommands.Command | lab1/zad2/main.c:20-50 | timer and waste fail their assert iff no argument follows, endtimer iff no timer was started; timer and waste consume one argument and endtimer none; timer sets the timer name to its argument, the others keep it |
| WcCommands.Dispatch | lab1/zad2/main.c:60-86 | the loop over `args`, `left` and `i`, starting at argv[1] with `left = argc - 1`, ends exactly as the dispatch function does on the words after the program name |
| WcCommands.RunTail | lab1/zad2/main.c:66-78 | once a command has run, the scan resumes at table entry 1 and exits with code 0 exactly on a sequence of `endtimer` (only after a timer) and `waste N` |
| WcCommands.Accepts | lab1/zad2/main.c:60-86 | main exits with code 0 exactly on an optional leading `timer NAME` followed by such a sequence; an unrecognised word gives 1, a missing argument or an early `endtimer` a failed assert |
| WcCommands.NoLaterTimer | lab1/zad2/main.c:74-77 | after the first command no later word starts a timer, and the actions already performed stay a prefix of the run's actions |
| SizedPath.NextSize | lab3/zad3/main.c:15-25 | the result is above x and at least 7, one more than it is a power of two, and it is the smallest such value; `x << 1` and `x--` wrap modulo 2^64 and x + 1 must not overflow |
| SizedPath.RoundUp | lab3/zad3/main.c:19-24 | once the loop has left only the highest bit of x + 1, doubling and decrementing give a value with all the properties NextSize promises |
| SizedPath.TopBit | lab3/zad3/main.c:19-21 | when `x & (x - 1)` is 0 the loop has left exactly the highest power of two at most x + 1 |
| SizedPath.ShlDec | lab3/zad3/main.c:22-23 | doubling and decrementing give 2x - 1 whenever 2x <= 2^64, although the doubling wraps to 0 when 2x = 2^64 |
| SizedPath.AllOnesMinimal | lab3/zad3/main.c:15-25 | 2^(L+1) - 1 is the smallest value of the form 2^k - 1 above x when 2^L <= x + 1 < 2^(L+1) |
| SizedPath.RoundUpFacts | lab3/zad3/main.c:22-24 | the bounds, the power-of-two form and the minimality of 2^(L+1) - 1 |
| SizedPath.SizedStr.Alloc | lab3/zad3/main.c:34-38 | an empty string with capacity n and a zeroed buffer of n + 1 bytes |
| SizedPath.SizedStr.Realloc | lab3/zad3/main.c:40-49 | a larger buffer of the requested capacity holding the same string |
| SizedPath.SizedStr.Ensure | lab3/zad3/main.c:59-74 | afterwards `cap >= len` as asserted for `wanted`; a sufficient capacity changes nothing; a grown capacity is next_size(n - 1), and the contents are kept with `realloc` and emptied without |
| SizedPath.SizedStr.Assign | lab3/zad3/main.c:76-81 | the string becomes a copy of s |
| SizedPath.SizedStr.Push | lab3/zad3/main.c:83-89 | the string becomes old ++ "/" ++ name and `len` grows by 1 + \|name\| |
| SizedPath.SizedStr.Pop | lab3/zad3/main.c:91-100 | the string is cut at its last `/` and the part after it returned; without a `/` NULL is returned and nothing changes |
| SizedPath.StrCpy | lab3/zad3/main.c:87 | strcpy writes the characters and a NUL from the given offset and leaves what lies before it alone |
| SizedPath.LastSlash | lab3/zad3/main.c:94 | strrchr: the position of a `/` with none after it, or None when the path has no `/` |
| SizedPath.PushPop | lab3/zad3/main.c:227-249 | popping after pushing a name without `/` gives back the earlier path and the name, which is what the assert after ss_pop in walk relies on |
| SizedPath.IsDotEntry | lab3/zad3/main.c:223-225 | the skip test holds exactly for the names `.` and `..` |
| SizedPath.ClassDigit | lab3/zad3/main.c:108-112 | the permission digit that applies to the walker is a 3-bit value |
| SizedPath.HavePermsClass | lab3/zad3/main.c:108-112 | HAVEPERMS tests exactly one bit, in the owner digit if the uid matches, else in the group digit if the gid matches, else in the other digit |
| SizedPath.OwnerBitsOnly | lab3/zad3/main.c:108-112 | an owner is judged by the owner bits alone, even when group and others may read |
| SizedPath.FindFrom | lab3/zad3/main.c:128-142 | strstr: the first position at which the extension occurs, or None when it occurs nowhere |
| SizedPath.SkippedAsWrittenSound | lab3/zad3/main.c:124-143 | every path the written filter skips ends in one of the five extensions |
| SizedPath.FirstOccurrenceEndsWith | lab3/zad3/main.c:128-141 | a first occurrence of an extension that ends the path means the path ends in that extension |
| SizedPath.SkippedAsWrittenMissesRepeat | lab3/zad3/main.c:128-130 | "./a.o.o" ends in ".o" but is searched, because the first ".o" in it does not end the path |
| SizedPath.SkippedAnyStem | lab3/zad3/main.c:124-143 | with the corrected filter every name ending in `.o`, `.png`, `.gz`, `.zip` or `.core` is skipped |
| SizedPath.Classify | lab3/zad3/main.c:115-193 | a failed lstat gives nothing; a file is searched iff it is regular and readable and executable or its name is not called binary, with a shebang check iff executable; the walker recurses iff the entry is a directory with read and execute permission; never both |
| SizedPath.Process | lab3/zad3/main.c:115-193 | the same decision with the filter as written: a non-executable regular readable file is searched iff the first occurrence of no extension ends its path |
| SizedPath.ProcessIntended | lab3/zad3/main.c:115-193 | the same decision with the intended filter: a non-executable regular readable file is searched iff its path ends in none of the extensions; it recurses exactly as process as written |
| SizedPath.ProcessIntendedSearchesLess | lab3/zad3/main.c:124-143 | the correction only stops searches, and only of non-executable files that end in an extension whose first occurrence does not end the path |
| SizedPath.ProcessSearchesObject | lab3/zad3/main.c:128-141 | a readable non-executable "./a.o.o" is searched by process as written and not by the intended one |
| SizedPath.WalkEntry | lab3/zad3/main.c:222-250 | `.` and `..` are skipped; any other entry is pushed, processed and popped, leaving the path as before, and a child is forked iff the entry is to be recursed into and depth > 1 |
| PairSum.Ctz | lab3/zad2/main.c:13-20 | ctz(0) is 32; for v > 0 the result i is below 32 and v is 2^i times an odd number |
| PairSum.TrailingZerosSplit | lab3/zad2/main.c:16-19 | a positive number is 2 to the power of its trailing zeros times an odd number |
| PairSum.TrailingZerosBound | lab3/zad2/main.c:15-19 | a positive 32-bit value has fewer than 32 trailing zeros, so `bin` indexes `accum` |
| PairSum.Increment | lab3/zad2/main.c:26 | with b = ctz(++mask) the bits below b were set and are now clear, bit b is set, and the higher bits are unchanged |
| PairSum.LowerBinsClear | lab3/zad2/main.c:26-30 | after ++mask the bins folded into `bin` are no longer marked, so the final sum never reads them again |
| PairSum.NewBin | lab3/zad2/main.c:26-30 | the new value plus the bins below `bin` is the sum of the last 2^bin values folded |
| PairSum.HigherBin | lab3/zad2/main.c:26-30 | a set bin above `bin` keeps its block of values |
| PairSum.NoBlocks | lab3/zad2/main.c:22-24 | the zeroed `accum` with mask 0 satisfies the counter invariant |
| PairSum.PushKeeps | lab3/zad2/main.c:26-30 | folding one value keeps the counter invariant: mask counts the values, and each set bit i marks a bin holding a block of 2^i consecutive values |
| PairSum.Push | lab3/zad2/main.c:26-30 | the fold step increments mask and keeps the counter invariant for the values with v appended |
| PairSum.BitsSumSuffix | lab3/zad2/main.c:33-35 | the bins of the set bits below k together hold the last Low(mask, k) values |
| PairSum.TotalIsSum | lab3/zad2/main.c:33-35 | the sum of `accum[i]` over the set bits of mask is the sum of every value folded so far |
| PairSum.Total | lab3/zad2/main.c:32-35 | the final loop adds `accum[i]` exactly for the set bits i of mask |
| PairSum.Owner | lab3/zad2/main.c:25 | every sample has a worker below `workers` |
| PairSum.HandledOnce | lab3/zad2/main.c:25 | worker `offset` handles sample s iff s is congruent to `offset` modulo `workers`, so each sample is handled by exactly one worker |
| PairSum.HandledApart | lab3/zad2/main.c:25 | two samples of one worker are at least `workers` apart |
| PairSum.ShareStep | lab3/zad2/main.c:25-31 | from one sample of a worker to its next, its share grows by the value of that sample |
| PairSum.Child | lab3/zad2/main.c:23-35 | a worker's result is the sum of f over exactly the samples below `samples` congruent to its offset |
| PairSum.Gather | lab3/zad2/main.c:107-137 | the parent's fold of the workers' results, through the same counter, is the sum of the results |
| PairSum.SharesCoverAll | lab3/zad2/main.c:72-89 | the workers' shares together are the sum over all samples |
| PairSum.GatherShares | lab3/zad2/main.c:107-132 | summing the results of workers 0..k-1 gives the sum of their shares |
| PairSum.ParseArgs | lab3/zad2/main.c:65-70 | the arguments are accepted iff there are exactly two, both whole numbers, with samples > 1 and workers > 0 |
| PairSum.Integrate | lab3/zad2/main.c:65-139 | the printed result is the sum of f over all samples divided by `samples` |
| CharCount.OctalBound | lab2/zad2/main.c:26-34 | one to three octal digits starting with 0 to 3 stay below 4, 32 and 256 respectively, so the `uint8_t` accumulator never truncates |
| CharCount.InterpretEscape | lab2/zad2/main.c:20-45 | after a backslash: a lone digit 0 to 3 gives 0, two or three octal digits starting with 0 to 3 give their value, a lone escape letter of `r n t b v a f \` gives its control character, and anything else, including a non-octal digit or trailing characters, gives -1 |
| CharCount.InterpretCharAsWritten | lab2/zad2/main.c:16-50 | the function as written: the empty string gives -1, a longer plain string -1, and a single plain character its signed `char` value |
| CharCount.SignedCharCounterexample | lab2/zad2/main.c:17-58 | as written the one-byte argument 0xC8 is accepted as -56, outside 0..255, and 0xFF comes out as -1, the usage error, though it names byte 255 |
| CharCount.InterpretChar | lab2/zad2/main.c:16-50 | with the character read as unsigned: exactly the byte the argument names, or -1, and every accepted result lies in 0..255 |
| CharCount.MeaningPlain | lab2/zad2/main.c:17-19 | the empty string and a lone backslash name nothing, a single plain character names itself, and two plain characters name nothing |
| CharCount.MeaningOctal | lab2/zad2/main.c:22-34 | "\1" is 0, "\12" is 10, "\377" is 255; four digits, a first digit above 3 or a digit 8 are refused |
| CharCount.MeaningNamed | lab2/zad2/main.c:36-44 | "\n" is the newline, "\nn" and an unknown escape letter are refused |
| CharCount.StartUp | lab2/zad2/main.c:52-58 | corrected, with the character read as unsigned: the usage error happens iff the argument count is wrong or the character names nothing; otherwise the byte named is used, and the range assert never fails |
| CharCount.StartUpAsWritten | lab2/zad2/main.c:16-58 | as written: a single byte 0xFF gives the usage error and a single byte from 0x80 to 0xFE fails the range assert; every other argument list starts as the corrected start does |
| CharCount.ScanFreshLine | lab2/zad2/main.c:94-102 | `freshline` is set exactly when the current line, if one is open, holds no match yet |
| CharCount.ScanCountsLines | lab2/zad2/main.c:94-102 | the byte counter counts every occurrence of the byte and the line counter the lines containing at least one |
| CharCount.CountChunk | lab2/zad2/main.c:94-102 | the inner loop over one buffer continues the scan of everything read so far, with both `unsigned` counters modulo 2^32 |
| CharCount.CountMatches | lab2/zad2/main.c:74-103 | over all the chunks the reads return, `matchbytes` is the number of matching bytes and `matchlines` the number of lines holding one, modulo 2^32, however the input is split |
| BlankLines.LineStartBefore | lab2/zad1/main.c:113-121 | the start of the line holding a byte is a line start at or before it, as `lineseekoff`/`linepos` record it |
| BlankLines.KeptNext | lab2/zad1/main.c:118-136 | the line from a line start to its newline, or to the end of the input, is dropped if it is blank and written whole otherwise |
| BlankLines.KeptAppendLine | lab2/zad1/main.c:104-146 | appending a line to input that ends at a line boundary appends exactly that line, unmodified and with its leading white space, to the output, unless it is made only of white space |
| BlankLines.KeptPrefixAppend | lab2/zad1/main.c:104-146 | what is written for a prefix of the input does not depend on what follows it |
| BlankLines.FindNewline | lab2/zad1/main.c:106 | memchr: the first newline at or after `curpos`, or None when the rest of the buffer holds none |
| BlankLines.WriteRest | lab2/zad1/main.c:107-109 | in writing mode a buffer rest without a newline is copied and the line stays open |
| BlankLines.WriteLine | lab2/zad1/main.c:110-116 | in writing mode the line is copied through its newline, the output is every kept line so far, and scanning starts at the next line |
| BlankLines.DropBlank | lab2/zad1/main.c:118-121 | a newline seen while scanning ends a blank line, which is not written |
| BlankLines.StartWriting | lab2/zad1/main.c:122-137 | a non-space byte seen while scanning makes the line one to write from its first byte |
| BlankLines.SkipSpace | lab2/zad1/main.c:138-140 | other white space is passed over while scanning |
| BlankLines.AtEnd | lab2/zad1/main.c:143-146 | at the end of the input an open blank fragment is dropped and a written one is complete, so the output is the kept lines of the whole input |
| BlankLines.WriteStep | lab2/zad1/main.c:105-116 | one pass of the loop in writing mode keeps the scanner state and makes progress |
| BlankLines.ScanStep | lab2/zad1/main.c:117-141 | one pass of the loop in scanning mode keeps the scanner state; it asks for a seek back only when the line started in an earlier buffer, and then the state holds from the line start |
| BlankLines.ScanBuffer | lab2/zad1/main.c:104-142 | the loop over one buffer keeps the scanner state up to the end of the buffer, or up to the line start when it stops for a seek back |
| BlankLines.RemoveBlankLines | lab2/zad1/main.c:36-149 | with other than two arguments the exit code is 2 and nothing is written; otherwise, across buffers and seeks back, the output is exactly the lines of the input that hold a non-space byte, in order and unmodified, a final fragment without a newline included |
| FrameCodec.ProducerArgs | lab5/zad3/producer.c:65-70 | the producer goes on exactly when it has four arguments, a block size of at least 0 and a line number in 1..100000, and then uses those two numbers |
| FrameCodec.DecimalValue | lab5/zad3/producer.c:85 | the decimal digits sprintf writes read back as the number |
| FrameCodec.DecimalWidth | lab5/zad3/producer.c:67 | a line number the producer accepts has at most six digits, so it fits the ten columns with the blank of the space flag |
| FrameCodec.Header | lab5/zad3/producer.c:85-86 | the header is 11 bytes, blanks or digits in the first ten and ':' at index 10 |
| FrameCodec.Terminated | lab5/zad3/producer.c:90-91 | the block keeps its bytes and ends in '\n'; it grows by exactly one byte when its last byte was not a newline |
| FrameCodec.Produce | lab5/zad3/producer.c:84-109 | one frame per block read, each the header followed by the newline-terminated block, and each fits the blocksize + 12 bytes of the buffer |
| FrameCodec.ConsumerArgs | lab5/zad3/consumer.c:62-67 | the consumer goes on exactly when it has three arguments and a block size of at least 0, and then uses that size |
| FrameCodec.ConsumerStartAsWritten | lab5/zad3/consumer.c:69-89 | the consumer reaches its loop iff both descriptors are valid and otherwise exits with 1; a failed open of the output file is reported as a failed file lock by the first `lock(outfd)` |
| FrameCodec.ConsumerStart | lab5/zad3/consumer.c:69-78 | with the second check testing `outfd`: the same runs and exits, and a failed open of the output file is reported as such |
| FrameCodec.ConsumerStartMessageOnly | lab5/zad3/consumer.c:69-89 | the written and corrected starts run and exit alike, with code 1, and differ exactly when the FIFO opens and the output file does not |
| FrameCodec.OpenCheckMissesOutput | lab5/zad3/consumer.c:74-78 | a FIFO that opens and an output file that does not (descriptor -1): as written the consumer exits with 1 reporting a failed file lock; corrected, it reports the failed open |
| FrameCodec.Find | lab5/zad3/consumer.c:108-109 | memchr and rawmemchr give the first index holding the byte, or nothing when no byte matches |
| FrameCodec.Decode | lab5/zad3/consumer.c:109-116 | a message is invalid data exactly when it has no ':' or atoi of it is not positive, the position assert fails exactly when the first ':' is not at index 10, and otherwise the line number is atoi of the message and the payload follows the header |
| FrameCodec.NthNewlineUnique | lab5/zad3/consumer.c:124-131 | the newline the counting loop stops at is the only one with lineno - 1 newlines before it |
| FrameCodec.PlaceOnLine | lab5/zad3/consumer.c:129-143 | the payload lands after exactly lineno - 1 newlines, and taking it out and putting back one newline gives the old file padded to lineno lines, every other byte in its place |
| FrameCodec.PlaceCount | lab5/zad3/consumer.c:129-143 | a one-line payload leaves the file with as many lines as before, or lineno lines when it had fewer |
| FrameCodec.PlaceEndsInNewline | lab5/zad3/consumer.c:129-143 | a file that ends in a newline still does after a payload that ends in one is placed |
| FrameCodec.PlaceLine | lab5/zad3/consumer.c:124-143 | the counting loop and the insert or append that follows it produce the placed file |
| FrameCodec.MemChr | lab5/zad3/consumer.c:108-109 | the scan returns the first index holding the byte, or n when none does |
| FrameCodec.MessagesStep | lab5/zad3/consumer.c:106-149 | a buffer whose first message decodes is handled by placing that message and going on with the bytes after it |
| FrameCodec.MemMove | lab5/zad3/consumer.c:145-148 | the unread bytes move to the front of the buffer in order |
| FrameCodec.Consume | lab5/zad3/consumer.c:86-151 | one pass over the bytes read ends the loop when nothing was read, echoes data that does not end in '\n', and otherwise places the messages one by one, stopping at invalid data or a failed assert |
| FrameCodec.DecodeMessage | lab5/zad3/consumer.c:108-116 | the consumer's checks on one message in the buffer decide as Decode does |
| FrameCodec.HeaderColon | lab5/zad3/consumer.c:109-112 | the first ':' of a frame is the header's, at index 10, and the header holds no newline |
| FrameCodec.HeaderParses | lab5/zad3/consumer.c:114 | atoi of a frame reads back the producer's line number, whatever the block holds |
| FrameCodec.AtoiSpaces | lab5/zad3/consumer.c:114 | the blanks of the header padding do not change what atoi reads |
| FrameCodec.FrameDecodes | lab5/zad3/consumer.c:106-116 | a frame of a block without inner newlines is one message and decodes to the producer's line number and the newline-terminated block |
| FrameCodec.MessagesHead | lab5/zad3/consumer.c:106-149 | a frame followed by whole messages is placed first and the rest handled after it |
| FrameCodec.FramesReceived | lab5/zad3/consumer.c:86-151 | however many frames one read coalesces, the consumer places every block on its line, in order |
| HashProbe.Unsigned | lab5/zad1/main.c:25 | the char, signed, converted to unsigned is a 32-bit value: bytes from 0x80 up are sign-extended |
| HashProbe.PartSnoc | lab5/zad1/main.c:24-25 | each character XORs its unsigned value into part |
| HashProbe.HashFn | lab5/zad1/main.c:20-32 | the loops compute Hash: the seed for the empty string, otherwise one xorshift round over the seed XOR part, part holding every character of the string (the shift stays at 0 because i is never incremented) |
| HashProbe.PartStep | lab5/zad1/main.c:24-25 | one pass of the inner loop adds the next character to part |
| HashProbe.HashBound | lab5/zad1/main.c:20-31 | every hash is a 64-bit value |
| HashProbe.HashPermutation | lab5/zad1/main.c:22-30 | strings with the same characters in any order hash alike, since every character lands at shift 0 |
| HashProbe.HashCollides | lab5/zad1/main.c:24-25 | "ab" and "ba" have the same hash |
| HashProbe.FoldPermutation | lab5/zad1/main.c:24-25 | a fold whose step commutes gives the same result over any permutation of its input |
| HashProbe.StrideOdd | lab5/zad1/main.c:40 | the stride ((hash >> 5) - hash) \| 1 is odd |
| HashProbe.WalkClosed | lab5/zad1/main.c:41-47 | after k steps idx is hash + k * inc, wrapped at 2^64 |
| HashProbe.ProbeSlot | lab5/zad1/main.c:39-43 | idx & mask is a cell of the table |
| HashProbe.ProbeLow | lab5/zad1/main.c:39-47 | in a table of 2^n cells the k-th cell probed is the low n bits of hash + k * inc, the 64-bit wrap notwithstanding |
| HashProbe.Distinct | lab5/zad1/main.c:40-47 | within 2^n steps of an odd stride the low n bits never repeat |
| HashProbe.ProbeDistinct | lab5/zad1/main.c:39-47 | in a table of 2^n cells the first 2^n probes look at distinct cells |
| HashProbe.VisitedCount | lab5/zad1/main.c:39-47 | k probes, k at most the size, look at k different cells |
| HashProbe.ProbeCovers | lab5/zad1/main.c:39-47 | in a table of 2^n cells every cell is probed within 2^n steps |
| HashProbe.PowerOfTwoAsWrittenRejects | lab5/zad1/main.c:37 | as written the assert holds only for a table of one cell, so it fails for 8 cells |
| HashProbe.PowerOfTwoIsPow2 | lab5/zad1/main.c:14-37 | the corrected assert holds exactly when the size is a power of two |
| HashProbe.ProbeFindsFree | lab5/zad1/main.c:35-48 | with fewer elements than cells in a power-of-two table, some probe within size steps finds an empty cell, so the loop ends |
| HashProbe.GetCell | lab5/zad1/main.c:34-50 | the cell returned is the first on the key's probe path that is empty or holds the key, every cell before it holds another key, and it is reached within size steps |
| HashProbe.Probe | lab5/zad1/main.c:39-49 | the probe loop for a given hash returns that first empty-or-matching cell on the path |
| HashProbe.HashAdd | lab5/zad1/main.c:52-61 | a key already present gets the new value in its cell, the old value is passed to the destructor when there is one and it is not NULL, and no other cell changes; a key not present leaves the table as it was |
| MailCmd.SortCommand | lab5/zad2/main.c:17 | the headers go through "sort -k2,2" exactly for sort method 1 and through "cat" otherwise |
| MailCmd.EscapedAt | lab5/zad2/main.c:50 | character i of the address is written at 2 i + 1 of the escaped word, behind a backslash |
| MailCmd.UnescapeEscaped | lab5/zad2/main.c:50 | quote removal of the escaped address gives the address without its newlines, because a backslash before a newline is a line continuation; no character is left unquoted, so no tilde expansion applies |
| MailCmd.EscapedAppend | lab5/zad2/main.c:50 | escaping character by character escapes the concatenation as the concatenation of the escapes |
| MailCmd.CommandLine | lab5/zad2/main.c:44-51 | the command line is "mail " followed by the escaped address, 5 + 2 \|to\| characters; the shell passes mail the address without its newlines and does no tilde expansion |
| MailCmd.ComposeCommand | lab5/zad2/main.c:42-52 | the zeroed buffer of 2 \|to\| + 8 characters holds the command line followed by its NUL, which fits |
| MailCmd.Message | lab5/zad2/main.c:68-75 | the text the five writes make up when every one succeeds: the empty Cc: answer, the subject and the contents, each closed by a newline |
| MailCmd.PartsMessage | lab5/zad2/main.c:68-75 | the five strings written one after the other are the message |
| MailCmd.SendParts | lab5/zad2/main.c:60-66 | TRYWRITE as written: a sequence of writes succeeds iff none of its strings is empty; what is sent is always a prefix of the whole text, and all of it when every write succeeds |
| MailCmd.SendMessage | lab5/zad2/main.c:60-75 | an empty subject stops the writes after the first newline, an empty body after the subject line; otherwise the whole message is sent |
| MailCmd.MailCompose | lab5/zad2/main.c:41-84 | mail is started with the escaped address; the mail is composed iff subject and contents are both non-empty, and then the whole message is sent; otherwise the run aborts after sending "\n", or "\n", the subject and "\n", a proper prefix of the message |
| MailCmd.MailComposeIntended | lab5/zad2/main.c:41-84 | corrected, with `fwrite(str, 1, len, f) < len`: every message is sent whole, and read back as its subject and contents when the subject is one line, an empty subject or body included |
| MailCmd.LineEnd | lab5/zad2/main.c:68-75 | the first newline of a text, or its end when it has none |
| MailCmd.ReadMessageBack | lab5/zad2/main.c:68-75 | the written text is read back as an empty Cc: answer, the subject and the contents whenever the subject is one line |
| MailCmd.Dispatch | lab5/zad2/main.c:91-109 | the usage is printed exactly unless there are three arguments or one that is "date" or "author", naming the program as argv[0] or "main"; "author" alone selects the sort; three arguments compose a mail to argv[1] without its newlines when the subject and the contents are non-empty, and abort when either is empty |
| MailCmd.ComposeRoundTrip | lab5/zad2/main.c:41-105 | with three arguments mail is started with the address without newlines, the whole address when it has none; the mail is composed iff subject and contents are non-empty, and is then read back as them when the subject is one line; an aborted run sends no complete message |
| MailCmd.EmptySubjectAborts | lab5/zad2/main.c:60-71 | as written, the arguments "a@b" "" "body" send only "\n" and abort; as intended, the mail is read back with an empty subject |
| Pnm.ParsePartType | lab8/main.c:27-37 | the call succeeds exactly for "num" and "blk", sets the type named, and leaves *out alone on failure |
| Pnm.PartTypeRoundTrip | lab8/main.c:27-37 | each partition type is recognised by its own name |
| Pnm.ParseArgs | lab8/main.c:44-47 | the arguments are accepted exactly when there are four, the thread count is a whole decimal number of at least 1 and the partition type is known |
| Pnm.ArgsRoundTrip | lab8/main.c:44-47 | every setting with at least one thread is accepted back from the command line that spells it out |
| Pnm.MagicDigit | lab8/main.c:83-89 | the magic digits are 1 to 6, the binary formats exactly 4 to 6 |
| Pnm.FormatOf | lab8/main.c:83-90 | the second magic byte names a format exactly when it is a digit 1 to 6 |
| Pnm.MagicDigitRoundTrip | lab8/main.c:83-90 | the magic digit and the format determine each other |
| Pnm.HasMaxval | lab8/main.c:84-89 | only the bitmaps, P1 and P4, have no maxval |
| Pnm.Channels | lab8/main.c:84-89 | three channels exactly for P3 and P6, one for the others |
| Pnm.MagicStep | lab8/main.c:78-93 | fewer than three bytes ask for more data; a parsed header is 'P', the format's magic digit and a white-space byte |
| Pnm.MagicStepAccepts | lab8/main.c:78-93 | every format is recognised from its magic number and any white-space byte, whatever follows |
| Pnm.Magic | lab8/main.c:64-93 | corrected: state 0 moves the cursor over the three magic bytes and sets binary, hasmaxval, maxval (1 for bitmaps, unchanged otherwise) and the channel count as the format says, then moves to state 1, which the source never does |
| Pnm.ChannelsAsWrittenCollapse | lab8/main.c:68-89 | the channel count kept in a bool is the same for every format, so a pixmap and a graymap store the same value |
| Pnm.ChannelsDistinguish | lab8/main.c:84-89 | kept as a number, the channel count tells a pixmap from any other kind |
| Pnm.HeaderLoopNeverParses | lab8/main.c:76-99 | as written the header loop never stops after a parsed magic number: it parses the next bytes as another one |
| Pnm.HeaderLoopRejectsBitmap | lab8/main.c:76-99 | as written the loop rejects the one-pixel plain bitmap "P1\n1 1\n1\n", whose magic number state 0 accepts |

## Left out

- Threads and blocking (lab9, lab7): thread creation, joining, condition waits and
  blocking semaphore waits are not modelled. Each critical section is one atomic
  method, and a wait that would block is a precondition. Lost wake-ups and memory
  ordering are therefore outside the model.
- Timing and logging: `nap`, the random delays, `report`, `printf` and
  `gettimeofday` are left out in every program. They do not affect the state modelled.
- lab9 `main`: the argument check and the thread spawning are not modelled.
- lab7 IPC: creating the System V and POSIX shared memory and semaphores is not
  modelled, and neither is the fork/execv/wait spawner. Only the counter semantics
  of the semaphores are kept.
- lab1/zad1: the `system("wc …")` call, the fopen/fseeko/fread of the temporary
  file, and `libwc_destroy` are not modelled. The file's contents are an input
  string, and allocation failures are boolean parameters.
- lab1/zad2: the clock readings and the printed report of `endtimer` are not
  modelled, nor the `sched_yield` calls of `waste`. The commands are kept as the
  actions they perform.
- lab3/zad3: the chunked content search of `process` is not modelled. Its result
  depends on how many bytes each read returns. Also left out are opendir/readdir,
  the recursive forking and the `exit(65)` on an allocation failure in
  `ss_ensure`; allocation always succeeds.
- lab3/zad2: the worker processes, their result files and the doubles are not
  modelled. The integrand is a parameter and the values are exact reals, so
  rounding is not modelled. `mask` and `samples` are bounded below 2^32 as
  preconditions, standing for the `unsigned` type.
- lab2/zad1: opening the files, and the `SYS` and stdio variants selected at
  compile time, are not modelled. Each read returns the next bytes of the input,
  up to a full buffer.
- lab2/zad2: file opening and the read system call are not modelled. Each chunk
  read is an input.
- lab5/zad3: `flock`, `ioctl(FIONREAD)`, `lseek` and the readall/writeall loops are
  not modelled. The output file is a character sequence, and each read from the
  FIFO is an input.
- lab5/zad1: the new-key path of `hash_add` is a TODO in the source and does
  nothing, as in the model. `strcmp` is modelled as sequence equality. The
  destructor called on an old value is reported, not called.
- lab5/zad2: `popen`/`pclose`, the loop copying the mail headers into the sort
  command, and the exits on a write that fails for an I/O error are not modelled.
  The abort of TRYWRITE on an empty string is (MailCmd.SendParts). The messages
  printed on stderr are left out. A run is described by the commands it starts and
  the text it writes.
- lab8: the header states 1 to 4, the pixel data, the read loop and the `memmove`
  of unread bytes are not modelled. `iswhitespace` is not defined in the file and is modelled as C's
  `isspace`.
- LibWc.EscapeWordMeaning, LibWc.EscapePathsMeaning: the builder's escaping is not a
  round trip for every name. A newline gets a backslash like any unsafe character,
  and the shell reads a backslash before a newline as a line continuation, so the
  newline is lost, and a dash after it is not guarded. A `~` is left unescaped, so
  a word starting with it undergoes tilde expansion. The contracts state what the
  shell then reads; the round trips (LibWc.EscapeWordRoundTrip, LibWc.PathsRoundTrip)
  hold only for names without newlines and without a word-initial `~`. Tilde expansion itself, and the other word expansions the escaping
  prevents, are not modelled; quote removal and tilde detection follow section 2.2.1
  and section 2.6.1 of the POSIX.1-2017 Shell Command Language.
- LibWc.PathsRoundTrip: paths without newlines reach wc unchanged, apart from the
  dash guards, only when no word of them begins with `~`; such a word is
  tilde-expanded, and the lemma states when that happens, not what it expands to.
- MailCmd.UnescapeEscaped, MailCmd.CommandLine: a newline in the address is escaped
  like any other character, and the shell deletes the backslash-newline pair, so
  mail receives the address without its newlines. The address is read back
  unchanged only when it has no newline (MailCmd.ComposeRoundTrip).
- MailCmd.ReadMessageBack, MailCmd.ComposeRoundTrip: MailCmd.ReadMessage is the
  layout the source's comments assume: an answer to a Cc: prompt, then a subject
  line, then the body. Whether mail(1) prompts for Cc: and Subject: when it reads a
  pipe depends on the mail implementation and its settings, and is not modelled. A
  mail that does not prompt would read every line as body text.
- lab5/zad1 and lab8 do not compile as written, and the model assumes these repairs.
  In lab5/zad1/main.c, `hashcell` at lines 13 and 34 is read as the typedef
  `_hashcell`; `res.key` and `res.val` at lines 43, 44, 54 and 57 are read as
  `res->key` and `res->val`; `m.val_free` at line 56 is read as the `elem_free`
  field. In lab8/main.c, the unfinished declaration `bool readnum` at line 39 is
  dropped; `fd` at line 72 is read as `infd`; `discard` at line 103 and the call at
  line 111 are outside the model; `val` at line 97 is taken as a long. The findings
  on those two files are about the code with these repairs.
- `strtol` and `atoi` (Common.ParseLong, Common.Atoi) are modelled as a plain
  decimal parse. Overflow and errno are not modelled.

## Findings

| source | as written | input that shows it | evidently intended | confidence | as-written member | corrected member |
|---|---|---|---|---|---|---|
| lab5/zad1/main.c:37 | `m.size & (m.size-1) == 0` parses as `m.size & ((m.size-1) == 0)`, so the assert holds only for a table of one cell | a table of 8 cells fails the assert (in a build with the repairs listed under Left out) | assert that the size is a power of two | high, not executed | HashProbe.PowerOfTwoAsWrittenRejects | HashProbe.PowerOfTwoIsPow2 |
| lab2/zad2/main.c:17 | `(int)(unsigned)(c)` of a plain (signed) `char` is negative for bytes from 0x80 | the one-byte argument 0xC8 gives -56, which fails the range assert; 0xFF gives -1, the usage error | the byte's value 0..255 | high on signed-char ABIs, not executed | CharCount.StartUpAsWritten | CharCount.StartUp |
| lab3/zad3/main.c:128-141 | a file is skipped only when the FIRST occurrence of an extension ends the path | a readable non-executable "./a.o.o" is searched although it ends in ".o" | skip every path that ends in one of the extensions | medium, not executed | SizedPath.ProcessSearchesObject | SizedPath.ProcessIntended |
| lab1/zad1/libwc.c:58-70 | `libwc_create_custom` sets up a context and returns NULL in every case | any temporary file name | return the context set up | high, not executed | LibWc.CreateCustomAsWritten | LibWc.CreateCustom |
| lab5/zad3/consumer.c:74-78 | the output file's open is checked by testing `fifofd` again; the failure is only caught by the first `lock(outfd)`, which exits with 1 reporting a failed file lock | the FIFO opens and the output file does not (descriptor -1) | test `outfd` and report the failed open | high, not executed | FrameCodec.OpenCheckMissesOutput | FrameCodec.ConsumerStart |
| lab8/main.c:68 | `channels` is a `bool`, so storing 1 and storing 3 both give true | a P6 pixmap and a P5 graymap store the same value (in a build with the repairs listed under Left out) | an integer channel count | high, not executed | Pnm.ChannelsAsWrittenCollapse | Pnm.ChannelsDistinguish |
| lab8/main.c:76-93 | state 0 never moves the parser to state 1 and `len` is never reduced, so the next bytes are parsed as another magic number | "P1\n1 1\n1\n" is rejected as a bad format (in a build with the repairs listed under Left out) | go on to state 1 (the width) after the magic number | high, not executed | Pnm.HeaderLoopRejectsBitmap | Pnm.Magic |
| lab5/zad2/main.c:60-66 | TRYWRITE tests `fwrite(str, len, 1, f) <= 0`, and fwrite of one item of size 0 writes nothing and returns 0, so an empty subject or body aborts the run | the arguments "a@b" "" "body": only "\n" reaches mail, "Short write, aborting" is printed and the exit code is 1 | `fwrite(str, 1, len, f) < len`, which accepts an empty string | high, not executed | MailCmd.EmptySubjectAborts | MailCmd.MailComposeIntended |
