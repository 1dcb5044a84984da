# A model of the lat class library's hard cores

The lat class library is a C++ library of portable system services. This project models six of
its parts whose correctness is decided by code rather than by system calls, and proves what each
of them is for.

- **File names.** `ExpandClean` is the two-pointer loop that canonicalises a name in place, tied to
  a stack machine over path components; `Truename` is the memoised, counter-bounded link resolver,
  tied to a walk in the sense of POSIX.1-2017 XBD section 4.13; `Expand` puts the two together, and
  `CanonicalLinks` decides for which names that is harmless, and `RelativeNames` for which names
  looked up from the current directory; `Substitute` is the variable loop over a buffer that grows
  under it. `Paths` and `FileParts` hold the vocabulary and the directory and file parts of names.
- **Argument lists.** `Arguments` is the shell-style tokenizer that writes into the buffer it is
  reading, the flat NUL-separated data, and the printer that quotes for it; `Commands` tells the
  arguments of every command from the ways its words can be written.
- **Bits.** `BitPattern`, `BitCount`, `BitReverse`, `BitScan` and `Morton` are the logarithmic bit
  algorithms, for every word width 2^k, over the numbers and bits of `Words`.
- **Selectors.** `FdMap` is the descriptor table that survives the erasing of requests; `SelectPoll`,
  `SelectSelect` with `SelectScan`, and `Kqueue` keep their system views in step with it;
  `ReadyLinks` and `ReadyList` are the circular ready list of the signal-driven selector. `Sequences`
  is the erasing and growing of vectors they share.
- **Directory iterators.** `DirStream` reads one directory; `DirIterators` are the copies that share
  records and one stream by reference count.
- **Name locks.** `LockName` is what a lock link says; `LockProtocol` interleaves the steps of any
  number of processes on several hosts; `LockRuns` says which runs are safe when stale links are
  removed late, or read and probed apart; `FileLock` is the lock object of one process.

Parts that update in place are methods over arrays or class fields. Each is proved equal to a
function of the old state, and the properties are proved of that function: over one operation, and
then by induction over every run. Where a documented property does not hold of the code, a lemma
gives the exact condition under which it does; such a lemma has a name that ends in `Exactly`.

What the system does enters as parameters: a function from names to link targets, the outcome of a
system call, the sets `select` fills in, the entries of a directory. The link function is fixed
while a name is resolved, and the root is no link. `select` is taken to report only descriptors of
interest and to return the number of bits it leaves set. Deleting an absent filter in the kernel
queue does nothing. Creating a symbolic link fails if something is there, and is atomic. Of the
processes it is assumed that no two live ones of a host share a pid, that boot times are known and
at least a second after the epoch, and that a reboot moves them by more than the one-second window
the code allows. Numeric values of the poll bits are those of the system headers.

Where code and comments disagree the code is modelled: `$$` (`Substitute`), zero in `islog2` and the
range of `ceil2` (`BitScan`), the unmasked last level of `mortonSplit` (`Morton`), empty arguments in
`quote` (`Arguments`), empty components in `expand` (`ExpandClean`), the order
of canonicalising and link chasing in `truename` (`CanonicalLinks`), the removal of stale links in
`locker` (`LockRuns`), the deletions `andMask` forgets (`Kqueue`), the limit that drops below idle
descriptors (`SelectSelect`).

`dafny verify dfyconfig.toml` checks the whole project.

## Model

| member | source | states |
|---|---|---|
| `ExpandClean.Rewrite` | src/iobase/Filename.cpp:791-911 | the two-pointer loop over the NUL-terminated buffer, for every name that is empty or starts with a separator: the part it keeps is the component-stack result of the old text, or of its suffix from the second slash of the last `//` when flushing; nothing unread is overwritten |
| `ExpandClean.BackScan` | src/iobase/Filename.cpp:885-889 | the backward scan for `..` ends on the separator in front of the last component written, so the written text is that of the stack without its top |
| `ExpandClean.SkipDot` | src/iobase/Filename.cpp:858-869 | `/.` leaves the stack as it is; only as the whole name it keeps its slash |
| `ExpandClean.SkipDotDot` | src/iobase/Filename.cpp:871-902 | `/..` pops the stack, or is pushed if the stack is empty; the root gets its slash back when nothing follows |
| `ExpandClean.CopyOne` | src/iobase/Filename.cpp:904-906 | copying a character never moves the write position past the read position and keeps what is written equal to the stack plus the part of the component read so far |
| `ExpandClean.Turn` | src/iobase/Filename.cpp:811-907 | every turn of the loop either moves on in the current component or takes one component over to the stack; a flush restarts the stack at the last `//` |
| `ExpandClean.ComponentAt` | src/iobase/Filename.cpp:861-877 | the two- and three-character look-ahead tests recognise exactly the components `.` and `..` |
| `ExpandClean.CanonicalIsTidyAndFixed` | src/iobase/Filename.cpp:858-907 | the canonical form has no `.`, has `..` at most as its first component, and is its own canonical form |
| `ExpandClean.CanonicalFixedExactly` | src/iobase/Filename.cpp:858-907 | a name is its own canonical form if and only if it has no `.` and no `..` but as its first component |
| `ExpandClean.DotVanishes` | src/iobase/Filename.cpp:858-869 | a `.` anywhere makes no difference |
| `ExpandClean.ParentTakesOne` | src/iobase/Filename.cpp:871-902 | an ordinary or empty component and the `..` behind it make no difference |
| `ExpandClean.TwoParentsVanish` | src/iobase/Filename.cpp:871-902 | nor do two `..` in front: the first stays for want of a parent, and the second takes it away again |
| `ExpandClean.CanonicalNeverLengthens` | src/iobase/Filename.cpp:909-910 | the canonical form is never longer than the name |
| `ExpandClean.PushKeepsPlace` | src/iobase/Filename.cpp:858-902 | one component keeps the denoted place if and only if it is not a `..` that takes away an empty component below a real one |
| `ExpandClean.PlaceKeptExactly` | src/iobase/Filename.cpp:791-928 | the canonical form of an absolute name denotes the place of the name if and only if after every `..` that takes away an empty component the name comes back to the root at some later point |
| `ExpandClean.EveryPartKeptExactly` | src/iobase/Filename.cpp:791-911 | all leading parts of a name keep their place if and only if no `..` ever meets such an empty component |
| `ExpandClean.CanonicalDenotesSamePlace` | src/iobase/Filename.cpp:913-928 | a name in which no `..` comes after an empty component denotes the same place as its canonical form, the parent of the root being the root |
| `ExpandClean.EmptyComponentSlips` | src/iobase/Filename.cpp:883-901 | for all ordinary `a`, `b`, the name `/a//../b` is rewritten to `/a/b` although it denotes `/b` |
| `Paths.RenderComponentsFrom` | src/iobase/Filename.cpp:808-907 | writing out the components of a name gives the name back |
| `Paths.ComponentsRender` | src/iobase/Filename.cpp:808-907 | reading the components of a written-out list gives the list back |
| `FileParts.Directory` | src/iobase/Filename.cpp:381-392 | the directory part is what precedes the last separator, with it, found by scanning back |
| `FileParts.Nondirectory` | src/iobase/Filename.cpp:400-412 | the rest after the last separator |
| `FileParts.AsFile` | src/iobase/Filename.cpp:355-373 | trailing separators are cut off, but never the root |
| `FileParts.NamesOfParts` | src/iobase/Filename.cpp:381-412 | directory and non-directory part together name the same path as the whole |
| `FileParts.NamesOfFileForm` | src/iobase/Filename.cpp:355-373 | cutting trailing separators does not change which names the path walks through |
| `FileParts.NamesOfDirForm` | src/iobase/Filename.cpp:344-353 | nor does adding one |
| `FileParts.NamesOfJoin` | src/iobase/Filename.cpp:165-188 | joining directory and file walks through the names of the one, then those of the other, whichever of them is empty or ends with a separator |
| `FileParts.PathOfChild` | src/iobase/Filename.cpp:525-526 | putting a name back on a resolved directory gives the path of the child, whose directory part is the directory again |
| `FileParts.ParentOfPath` | src/iobase/Filename.cpp:513-517 | `asFile`, `directory`, `asFile` on a resolved name give the path of its parent, and the root for the root |
| `Truename.EndIsUnique` | src/iobase/Filename.cpp:544-547 | a walk over names through the links ends in at most one place |
| `Truename.TruenameIsUnique` | src/iobase/Filename.cpp:544-547 | a name has at most one true name |
| `Truename.TruenameShape` | src/iobase/Filename.cpp:544-547 | a true name is absolute, has neither `.` nor `..`, and no prefix of it, the whole included, is a link |
| `Truename.LevelIsRight` | src/iobase/Filename.cpp:510-540 | one level of the resolver, given the true name of the directory: if it is done its name is true; if it chases a link, the true name of the new name is the true name of the old |
| `Truename.ResolveDirectory` | src/iobase/Filename.cpp:490-508 | the directory step returns the true name of the directory whether it comes from the root test, the memo or the recursive call; the memo stays true, and the result is that of the memo-free resolver whenever that one succeeds |
| `Truename.ResolveLast` | src/iobase/Filename.cpp:510-540 | the last-component step computes the level the lemmas speak about |
| `Truename.FindTruename` | src/iobase/Filename.cpp:481-542 | whenever the resolver returns a name it is the true name of its input; every memo entry stays a true name; and whenever the memo-free resolver succeeds within the counter, the memoised one returns the same name |
| `Truename.PlainIsRight` | src/iobase/Filename.cpp:481-542 | whatever the memo-free resolver returns is the true name of its input |
| `Truename.PlainMore` | src/iobase/Filename.cpp:487-488 | a larger counter never changes a result |
| `Truename.EnoughCounter` | src/iobase/Filename.cpp:487-488 | a name whose walk ends in n steps, l of them links, is resolved with a counter of n + l + 1, and one more for a trailing separator |
| `Truename.HundredIsEnough` | src/iobase/Filename.cpp:558-562 | the counter of 100 resolves every name whose walk takes no more than 98 steps, links counted twice |
| `Truename.PlainNeedsDepth` | src/iobase/Filename.cpp:487-508 | no name is resolved with a counter below one or below the number of names on the way to it |
| `Truename.ChainNeeds` | src/iobase/Filename.cpp:487-540 | nor is the first of a chain of links with a counter below the length of the chain |
| `Truename.ResolvesExactly` | src/iobase/Filename.cpp:481-542 | for some counter the resolver succeeds if and only if the walk over the name ends |
| `Expand.Expanded` | src/iobase/Filename.cpp:929-961 | `expand` of a name without home directory is the canonical form of the name put behind the current directory |
| `Expand.NamesOfPrefixed` | src/iobase/Filename.cpp:767-785 | the name put behind the current directory walks through the names of the directory and then those of the name; an absolute name is left as it is |
| `Expand.ComponentsOfPrefixed` | src/iobase/Filename.cpp:767-785 | its components are those of the directory, without a separator at its end, and then those of the name |
| `Expand.DotsDoNotMatter` | src/iobase/Filename.cpp:518-522 | `.` components make no difference to where a walk ends |
| `Expand.ParentOfLinkIsLost` | src/iobase/Filename.cpp:548-551 | an example of a canonical form that resolves differently from its name: if `/l` leads to `/d/e`, then `/l/..` is `/d`, but `truename` resolves the canonical form, the root |
| `CanonicalLinks.SameTruenamesExactly` | src/iobase/Filename.cpp:548-563 | the canonical form, which `truename` resolves, has the same true names as the name itself whatever the links and the current directory are, if and only if no `..` of the name stands behind an ordinary component |
| `CanonicalLinks.EndsAlikeUncut` | src/iobase/Filename.cpp:548-563 | in a name without such a `..` the walks over the name and over its canonical form end at the same place, through any links |
| `CanonicalLinks.CutChangesTruenames` | src/iobase/Filename.cpp:548-563 | for every name with such a `..` there is a link that makes the two resolve differently |
| `RelativeNames.TruenameOf` | src/iobase/Filename.cpp:548-563 | what `truename` returns is the true name of the expanded name, found whenever 100 levels are enough; and it is the true name of the name itself if no `..` stands behind an ordinary component, or if the current directory has no links and all `..` come first in a relative name |
| `RelativeNames.RelativeKeepsTruenames` | src/iobase/Filename.cpp:548-551 | from a current directory without links, a relative name whose `..` all come first has the same true names as its expanded form, through any links |
| `RelativeNames.Climb` | src/iobase/Filename.cpp:871-902 | a `..` in front cuts the same name of the current directory as the walk leaves |
| `Substitute.ScanReference` | src/iobase/Filename.cpp:1051-1079 | the scanner finds the extent of `$NAME` and `${NAME}` and the two kinds of malformed reference |
| `Substitute.ReplaceInPlace` | src/iobase/Filename.cpp:1028-1113 | the loop over the growing buffer equals the left-to-right expansion of the original text, with the same error |
| `Substitute.SubstituteIn` | src/iobase/Filename.cpp:1028-1115 | after the loop the name is flushed and cleaned; the result is the canonical suffix of the expansion |
| `Substitute.BraceReference` | src/iobase/Filename.cpp:1051-1064 | `${NAME}` followed by any text gives the value followed by what the text gives, or fails if there is none: the name is everything up to the first brace, and the brace goes with it |
| `Substitute.WordReference` | src/iobase/Filename.cpp:1066-1079 | so does `$NAME`, where the name is made of letters, digits and underscores, as many as there are |
| `Substitute.OpenBrace` | src/iobase/Filename.cpp:1051-1064 | a `${` without the other brace fails and tells the rest of the text |
| `Substitute.NoName` | src/iobase/Filename.cpp:1066-1079 | a `$` with no name behind it is bad syntax |
| `Substitute.TwoDollars` | src/iobase/Filename.cpp:1048-1050 | of two `$` the first one is dropped and the second one read again |
| `Substitute.OtherCharacter` | src/iobase/Filename.cpp:1038-1040 | all other characters stand for themselves |
| `Substitute.ReplaceShowsPieces` | src/iobase/Filename.cpp:1081-1108 | the expansion is determined by pieces cut from the original text before any lookup: inserted values are never scanned again, and the error is that of the first malformed or undefined reference |
| `Substitute.DoubleDollarExactly` | src/iobase/Filename.cpp:1048-1050 | whatever the variables are, the loop gives the result the documented treatment of `$$` gives, if and only if its scan never meets a `$$` or the documented reading is ill-formed anyway |
| `Substitute.DoubleDollarWithoutDollars` | src/iobase/Filename.cpp:1048-1050 | for given variables whose values hold no dollar sign, if either expansion succeeds the two agree if and only if the scan never meets a `$$` |
| `Substitute.DoubleDollarExample` | src/iobase/Filename.cpp:1048-1050 | `$$x` expands to the value of `x`, or fails, instead of giving `$x` |
| `Arguments.ScanInto` | src/utils/Argz.cpp:223-271 | the three-flag scanner, writing to the front of the buffer it reads, leaves there exactly the next token of the original command and does not touch what is unread |
| `Arguments.TakeArgument` | src/utils/Argz.cpp:214-286 | one turn takes one token, with its terminating NUL, and gives the overwritten byte back |
| `Arguments.Argz.AppendTokens` | src/utils/Argz.cpp:208-286 | the outer loop appends exactly the tokens of the command, each with a NUL |
| `Commands.TokensOfCommand` | src/utils/Argz.cpp:205-286 | every command that consists of words with blanks between them is split into those words; a word is any sequence of characters as they are, characters behind a backslash, stretches between single quotes, and stretches between double quotes in which a backslash takes only a double quote or a backslash; a quote may be left open at the end |
| `Commands.ScanWord` | src/utils/Argz.cpp:221-271 | one such word, wherever it stands, is scanned as what its parts mean, up to the blank behind it |
| `Commands.ScanDouble` | src/utils/Argz.cpp:238-260 | between double quotes everything is taken as it is, blanks and single quotes too; a backslash counts as one only in front of a double quote or a backslash |
| `Commands.TokensOfBlanks` | src/utils/Argz.cpp:200-203 | a command of nothing but blanks gives one empty argument |
| `Commands.EveryCommandIsWritten` | src/utils/Argz.cpp:205-286 | there is no other command: every text is made of such words and blanks, so these laws tell the arguments of all commands |
| `Arguments.Argz.Clear` | src/utils/Argz.cpp:45-51 | afterwards there are no arguments and no pointers, as in a new list |
| `Arguments.Argz.Assign` | src/utils/Argz.cpp:29-37 | the list afterwards holds the arguments the other one held, also when a list is assigned to itself |
| `Arguments.Argz.CStrings` | src/utils/Argz.cpp:71-73 | what a client reads off the pointer list up to its null pointer are the arguments |
| `Arguments.Argz.Build` | src/utils/Argz.cpp:165-289 | the argument list afterwards is the one before followed by the tokens of the command up to its first NUL; an empty command adds nothing |
| `Arguments.Argz.BuildList` | src/utils/Argz.cpp:146-163 | the argument list afterwards is the one before followed by the given arguments, empty ones included |
| `Arguments.Argz.ReArgz` | src/utils/Argz.cpp:128-144 | the pointer list is remade as the starts of the NUL-terminated strings in the data, with a null pointer at the end |
| `Arguments.StartsShowArguments` | src/utils/Argz.cpp:136-143 | every pointer shows the argument of its place |
| `Arguments.SplitAppend` | src/utils/Argz.cpp:158-162 | appending NUL-terminated data appends its arguments and disturbs none of the old ones |
| `Arguments.Argz.Quote` | src/utils/Argz.cpp:75-123 | the printed command is that of the argument list |
| `Arguments.Argz.QuoteOne` | src/utils/Argz.cpp:86-115 | an argument is printed bare if all its characters are safe, and in single quotes with escapes otherwise |
| `Arguments.BareExactly` | src/utils/Argz.cpp:78-95 | an argument is printed bare if and only if it is made of letters, digits and `,./:_-+`, and otherwise between single quotes |
| `Arguments.BodyOfParts` | src/utils/Argz.cpp:107-114 | between the quotes every character stands for itself, but a quote or backslash is taken out of the quotes and put behind a backslash |
| `Arguments.ScanArg` | src/utils/Argz.cpp:86-115 | a printed argument, whatever quotes, backslashes and spaces it holds, is scanned back as it was |
| `Arguments.TokensOfQuoted` | src/utils/Argz.cpp:75-123 | printing and splitting any list gives its non-empty arguments in order; two or more empty arguments alone come back as a single empty one |
| `Arguments.RoundTripExactly` | src/utils/Argz.cpp:75-123 | splitting the printed list gives the list back if and only if no argument is empty |
| `Arguments.QuoteAndBuild` | src/utils/Argz.cpp:75-289 | the same through the objects: build, print, build again |
| `BitPattern.RepeatBit` | classlib/utils/BitPattern.h:10-42 | bit `i` of the recursively built mask is bit `i % Width` of the pattern, below the built width and nowhere else |
| `BitPattern.MagicBit` | classlib/utils/BitOps.h:85-99 | a binary magic number has its ones in the lower half of every 2B bits |
| `BitCount.FieldsAdd` | classlib/utils/BitOps.h:117-133 | if no field of a sum overflows, the fields are added one by one |
| `BitCount.CountOpHolds` | classlib/utils/BitOps.h:117-133 | after level B every 2B-bit field holds the number of set bits of that field of the input |
| `BitCount.CountIsPop` | classlib/utils/BitOps.h:135-138 | for every width 2^k, `count` is the number of set bits |
| `BitReverse.ReverseIsMirror` | classlib/utils/BitOps.h:147-172 | for every width W = 2^k, bit `i` of `reverse(n)` is bit `W - 1 - i` of `n` |
| `BitReverse.ReverseTwice` | classlib/utils/BitOps.h:168-172 | reversing twice gives the word back |
| `BitScan.RZeroIsLargestPower` | classlib/utils/BitOps.h:181-211 | the powers of two that divide `n` are exactly those up to `2^rzero(n)`; `rzero(0)` is the width |
| `BitScan.Log2IsFloor` | classlib/utils/BitOps.h:220-243 | `2^log2(n) <= n < 2^(log2(n)+1)` for every positive word |
| `BitScan.IsLog2Exactly` | classlib/utils/BitOps.h:248-252 | `islog2` holds for the powers of two and for zero, which its comment does not mention |
| `BitScan.Ceil2Exactly` | classlib/utils/BitOps.h:258-275 | `ceil2(n)` is the least power of two not below `n` if and only if `1 <= n <= 2^(W-1)`; otherwise it is zero |
| `BitScan.ParityIsOddCount` | classlib/utils/BitOps.h:281-300 | `parity` is true if and only if `count` is odd |
| `Morton.InterleaveBits` | classlib/utils/BitOps.h:319-379 | bit `i` of `x` goes to `2i` and bit `i` of `y` to `2i + 1` |
| `Morton.InterleaveIsInjective` | classlib/utils/BitOps.h:365-379 | two pairs have the same Morton number if and only if they are the same pair |
| `Morton.GatherIsEvenBits` | classlib/utils/BitOps.h:347-363 | for every word, one half of the split is the even bits together with an echo of their upper half, because the last level is not masked |
| `Morton.SplitOfInterleave` | classlib/utils/BitOps.h:376-389 | the lower halves of the results of `mortonSplit` are the original numbers |
| `Morton.SplitUndoesExactly` | classlib/utils/BitOps.h:381-389 | `mortonSplit` undoes `mortonInterleave` if and only if both numbers fit a quarter of the word |
| `FdMap.AddKeepsInverse` | src/iobase/IOSelectFdMap.cpp:7-31 | entering an unused descriptor and appending its request keeps the two tables inverse and adds exactly that entry to the map they stand for |
| `FdMap.RemoveKeepsInverse` | src/iobase/IOSelectFdMap.cpp:33-54 | clearing a descriptor with the decrement loop and erasing its request keeps them inverse, removes that entry and moves no other |
| `FdMap.UpdateKeepsInverse` | src/iobase/IOSelectPoll.cpp:94-107 | changing a mask in place changes one entry of the map |
| `FdMap.RequestTable.Fdmap` | src/iobase/IOSelectFdMap.cpp:7-31 | the table grows with unmapped entries up to the descriptor and gets the index |
| `FdMap.RequestTable.Fdclear` | src/iobase/IOSelectFdMap.cpp:33-54 | returns the old index, unmaps the descriptor, and lowers exactly the larger indices by one |
| `FdMap.RequestTable.AddReq` | src/iobase/IOSelectMethod.cpp:22-27 | appends the request |
| `FdMap.RequestTable.RemoveReq` | src/iobase/IOSelectMethod.cpp:29-36 | erases the request at the index, which must be the one named |
| `FdMap.MaskAfter` | src/iobase/IOSelectPoll.cpp:94-117 | setting, and-ing and or-ing a mask give the operand, the common bits and all bits; no other descriptor is touched |
| `SelectTypes.PollEventsAsk` | src/iobase/IOSelectPoll.cpp:31-33 | told from the bits of the mask: input is asked for if and only if reading or accepting is of interest, output for writing or connecting, priority data for urgent data, and nothing else |
| `SelectTypes.InterestBits` | src/iobase/IOSelectSelect.cpp:31-42 | reading and accepting are one interest, writing and connecting another, and urgent data the third |
| `SelectPoll.AttachRefines` | src/iobase/IOSelectPoll.cpp:21-45 | attaching keeps descriptor table, request vector and poll vector consistent and adds one entry to the plain map |
| `SelectPoll.DetachRefines` | src/iobase/IOSelectPoll.cpp:48-65 | detaching keeps them consistent and removes one entry |
| `SelectPoll.WithMaskRefines` | src/iobase/IOSelectPoll.cpp:93-117 | a new mask goes to the request and, translated, to the poll entry at the same place |
| `SelectPoll.RunRefines` | src/iobase/IOSelectPoll.cpp:21-117 | over every run of attach, detach, set, and, or the tables stay inverse, the poll vector parallel and translated, and together they are the plain map from descriptors to requests; `poll` is asked for what the bits of every mask in that map say |
| `SelectPoll.ConsistentIsPolled` | src/iobase/IOSelectPoll.cpp:21-117 | the poll vector asks about every registered descriptor exactly once, about no other, and for what the bits of its mask say |
| `SelectPoll.DetachAssertionExactly` | src/iobase/IOSelectPoll.cpp:65 | the last assertion of `detach` holds if and only if another registration is left, as the descriptor table never shrinks |
| `SelectPoll.Selector.Attach` | src/iobase/IOSelectPoll.cpp:21-45 | the selector's new state is that of the operation on values, and consistent |
| `SelectPoll.Selector.Detach` | src/iobase/IOSelectPoll.cpp:48-65 | the same for detaching |
| `SelectPoll.Selector.SetMask` | src/iobase/IOSelectPoll.cpp:93-107 | the same for setting a mask |
| `SelectPoll.Selector.AndMask` | src/iobase/IOSelectPoll.cpp:109-112 | the same for keeping bits of a mask |
| `SelectPoll.Selector.OrMask` | src/iobase/IOSelectPoll.cpp:114-117 | the same for adding bits to a mask |
| `SelectScan.StopIsLeast` | src/iobase/IOSelectSelect.cpp:175-184 | the scan stops at the least ready descriptor above its position, or past the limit |
| `SelectScan.NextKeepsCount` | src/iobase/IOSelectSelect.cpp:169-202 | after every call `m_nready` is the number of status bits above `m_current`; the call finds the least ready descriptor there, and nothing if and only if no bit is left |
| `SelectScan.DrainVisitsEachOnce` | src/iobase/IOSelector.cpp:159-176 | calling `next` until it finds nothing returns every ready descriptor exactly once, in increasing order, each with exactly what it is ready for |
| `SelectSelect.LowerIsHighest` | src/iobase/IOSelectSelect.cpp:59-64 | the lowering loop ends at the highest descriptor with interest, or at -1 |
| `SelectSelect.AttachRefines` | src/iobase/IOSelectSelect.cpp:19-46 | attaching keeps the three descriptor sets equal to the translated masks and below the limit |
| `SelectSelect.DetachRefines` | src/iobase/IOSelectSelect.cpp:48-65 | detaching does too, and leaves `m_maxfd` at the highest descriptor with interest, or -1 |
| `SelectSelect.WithMaskRefines` | src/iobase/IOSelectSelect.cpp:84-117 | so does changing a mask |
| `SelectSelect.RunRefines` | src/iobase/IOSelectSelect.cpp:19-117 | over every run the sets are exactly the masks of the plain map, translated, and told from the bits of the masks |
| `SelectSelect.StillSettableExactly` | src/iobase/IOSelectSelect.cpp:59-64 | after a detach, the assertion of `setMask` accepts another registered descriptor if and only if some descriptor at or above it still has interest |
| `SelectSelect.FreshIsCounted` | src/iobase/IOSelectSelect.cpp:135-166 | right after `wait` the count is that of all status bits |
| `SelectSelect.MaskedBits` | src/iobase/IOSelectSelect.cpp:194-200 | an event carries, of each bit the client registered for, the one its descriptor is ready for, and no other bit |
| `SelectSelect.Selector.Attach` | src/iobase/IOSelectSelect.cpp:19-46 | the new state of the selector is that of the operation on values |
| `SelectSelect.Selector.Detach` | src/iobase/IOSelectSelect.cpp:48-65 | likewise, with a tight limit after the loop |
| `SelectSelect.Selector.SetMask` | src/iobase/IOSelectSelect.cpp:84-107 | likewise |
| `SelectSelect.Selector.AndMask` | src/iobase/IOSelectSelect.cpp:109-112 | likewise |
| `SelectSelect.Selector.OrMask` | src/iobase/IOSelectSelect.cpp:114-117 | likewise |
| `SelectSelect.Selector.Wait` | src/iobase/IOSelectSelect.cpp:135-166 | with a successful `select` the scan starts fresh and the result says whether anything is ready; with a failing one the count is -1 |
| `SelectSelect.Selector.NextEvent` | src/iobase/IOSelectSelect.cpp:168-202 | one call of `next`: the scan moves as on values, and the event carries the registered bits only |
| `SelectSelect.Selector.Dispatch` | src/iobase/IOSelector.cpp:159-176 | the dispatch loop, with callbacks that leave the registrations alone, delivers the whole scan |
| `Kqueue.ReplayEntries` | src/iobase/IOSelectKqueue.cpp:62-79 | replaying a log that got new entries overrules the old log for the pushed filters only |
| `Kqueue.SetEffect` | src/iobase/IOSelectKqueue.cpp:104-132 | `doSet` adds exactly the filters of its operand to what the log will give, and the same filters to what the masks want |
| `Kqueue.ClearEffect` | src/iobase/IOSelectKqueue.cpp:134-159 | `doClear` deletes exactly the filters its operand has no bit for |
| `Kqueue.CallLeaks` | src/iobase/IOSelectKqueue.cpp:30-217 | every call keeps the tables, leaves no registered mask without its filters, and determines which filters are left although no mask wants them |
| `Kqueue.ExactAfterExactly` | src/iobase/IOSelectKqueue.cpp:171-179 | from a state where log and masks agree, a call spoils the agreement if and only if it is an `andMask` whose operand keeps one bit of a wanted pair but not the one that was set |
| `Kqueue.RunLeaksExactly` | src/iobase/IOSelectKqueue.cpp:30-217 | over every run the filters left over at the end are those the plain map of registrations tells: forgotten by an `andMask` and not made up for by a later call |
| `Kqueue.RunExactExactly` | src/iobase/IOSelectKqueue.cpp:30-217 | a run ends with log and masks in agreement if and only if the plain map tells so of every filter |
| `Kqueue.RunIsExact` | src/iobase/IOSelectKqueue.cpp:30-217 | over every run whose `andMask` operands keep or drop whole pairs, replaying the pending log gives exactly the filters of the registered masks |
| `Kqueue.RunIsCovered` | src/iobase/IOSelectKqueue.cpp:30-217 | over every run at all it gives at least those |
| `Kqueue.SplitPairsForget` | src/iobase/IOSelectKqueue.cpp:134-159 | every operand that splits a pair does forget a filter for some mask |
| `Kqueue.LeakOutlivesDetach` | src/iobase/IOSelectKqueue.cpp:52-84 | a filter that was left over stays in the system after its descriptor is detached |
| `Kqueue.Selector.Attach` | src/iobase/IOSelectKqueue.cpp:30-50 | the selector's new tables, masks and log are those of the operation on values; the result vector keeps room for two events a request |
| `Kqueue.Selector.Detach` | src/iobase/IOSelectKqueue.cpp:52-84 | likewise, with deletions for the current mask |
| `Kqueue.Selector.DoSet` | src/iobase/IOSelectKqueue.cpp:104-132 | likewise |
| `Kqueue.Selector.DoClear` | src/iobase/IOSelectKqueue.cpp:134-159 | likewise |
| `Kqueue.Selector.SetMask` | src/iobase/IOSelectKqueue.cpp:161-169 | likewise |
| `Kqueue.Selector.AndMask` | src/iobase/IOSelectKqueue.cpp:171-174 | likewise |
| `Kqueue.Selector.OrMask` | src/iobase/IOSelectKqueue.cpp:176-179 | likewise |
| `Kqueue.Selector.Wait` | src/iobase/IOSelectKqueue.cpp:196-217 | hands the whole log over once and empties it |
| `ReadyLinks.QueueIsUnique` | src/iobase/IOSelectSig.cpp:66-130 | the links represent no other queue than the one that can be read off them |
| `ReadyLinks.AddAppends` | src/iobase/IOSelectSig.cpp:66-94 | `addReady` puts the descriptor at the end of the circular queue |
| `ReadyLinks.DeleteDrops` | src/iobase/IOSelectSig.cpp:97-130 | `delReady` takes it out and closes the gap, wherever it stood |
| `ReadyLinks.DeleteFrame` | src/iobase/IOSelectSig.cpp:97-130 | and touches nothing off the list |
| `ReadyList.ToldBits` | src/iobase/IOSelectSig.cpp:351-352 | a signal adds what it tells of the six poll events to the ready bits, and nothing else |
| `ReadyList.MeetsExactly` | src/iobase/IOSelectSig.cpp:132-150 | told from the bits of the mask: a descriptor is to be listed if it is ready to be read from and reading or accepting is wanted, and so on |
| `ReadyList.StatusAfter` | src/iobase/IOSelectSig.cpp:155-398 | what every operation does to the interest and ready bits of its descriptor, bit by bit, and that it leaves all others alone |
| `ReadyList.RunForgetsNone` | src/iobase/IOSelectSig.cpp:155-442 | over every run of the plain queue model, every descriptor that is ready for something it waits for is queued, or was handed out and has had no news since; only attached descriptors are queued, and none twice |
| `ReadyList.UpdateTells` | src/iobase/IOSelectSig.cpp:132-150 | after `updateReady` the queue holds the descriptor exactly if its ready and interest bits meet |
| `ReadyList.SyncListsExactly` | src/iobase/IOSelectSig.cpp:132-150 | and all others keep their order |
| `ReadyList.PlacedTells` | src/iobase/IOSelectSig.cpp:191-199 | attaching queues the descriptor at the end, although `m_next` is marked twice and `m_prev` never |
| `ReadyList.TrimmedTells` | src/iobase/IOSelectSig.cpp:234-239 | shrinking the array drops no descriptor in use |
| `ReadyList.TrimmedIsTight` | src/iobase/IOSelectSig.cpp:240-246 | after it the array ends with an entry in use, or is empty |
| `ReadyList.AttachGrows` | src/iobase/IOSelectSig.cpp:155-211 | whatever becomes of the system calls, attaching leaves a table with a place for the descriptor, and no larger than that |
| `ReadyList.GoneTells` | src/iobase/IOSelectSig.cpp:230-239 | detaching takes the descriptor off the list and out of the table |
| `ReadyList.ApplyRefines` | src/iobase/IOSelectSig.cpp:66-283 | every operation does to queue and interests what the plain queue model says, and `m_nfds` counts the attached descriptors plus the attaches whose poll failed |
| `ReadyList.RunRefines` | src/iobase/IOSelectSig.cpp:66-442 | over every run the links form one circular doubly linked list that represents a duplicate-free FIFO queue of length `m_nready` headed by `m_readylist`; everything off it is marked |
| `ReadyList.IndexStillRightExactly` | src/iobase/IOSelectSig.cpp:235-246 | `detach` does not renumber: a remembered request index stays right if and only if it is below the erased one |
| `ReadyList.Selector.AddReady` | src/iobase/IOSelectSig.cpp:66-94 | the link fields afterwards are those of adding |
| `ReadyList.Selector.DelReady` | src/iobase/IOSelectSig.cpp:97-130 | those of deleting |
| `ReadyList.Selector.UpdateReady` | src/iobase/IOSelectSig.cpp:132-150 | those of updating |
| `ReadyList.Selector.Attach` | src/iobase/IOSelectSig.cpp:155-211 | new state for each outcome of the system calls; a failing poll leaves `m_nfds` raised |
| `ReadyList.Selector.Detach` | src/iobase/IOSelectSig.cpp:213-247 | new state after detaching, unchanged if the system call fails |
| `ReadyList.Selector.SetMask` | src/iobase/IOSelectSig.cpp:267-283 | new state after a mask change and update |
| `ReadyList.Selector.Notify` | src/iobase/IOSelectSig.cpp:351-357 | a queued signal adds ready bits and updates, unless the descriptor is gone |
| `ReadyList.Selector.Resync` | src/iobase/IOSelectSig.cpp:380-398 | the fallback's report replaces the ready bits and updates, unless they are the same |
| `ReadyList.Selector.NextReady` | src/iobase/IOSelectSig.cpp:406-442 | returns the first of the queue and takes it off, or refuses an invalid one |
| `DirStream.ReadEntry` | src/iobase/UnixDirIterator.cpp:11-31 | reads one entry, tells whether it is a hidden dot entry, and marks the end |
| `DirStream.ShownExactly` | src/iobase/UnixDirIterator.cpp:22-30 | only `.` and `..` are hidden, and only from iterators that did not ask for them |
| `DirStream.VisibleIs` | src/iobase/UnixDirIterator.cpp:11-31 | what clients see is the listing in its order, or the listing without those two |
| `DirStream.ReadShown` | src/iobase/DirIterator.cpp:50-53 | the loop of `next` reads on to the next entry that is shown |
| `DirStream.StepMoves` | src/iobase/DirIterator.cpp:41-54 | from the k-th visible entry it moves to the next one, and to the end after the last |
| `DirIterators.ConstructKeeps` | src/iobase/DirIterator.cpp:61-134 | a constructor starts an iterator at the first visible entry of a directory nobody else has, at the end without a name, and nowhere for an empty name |
| `DirIterators.RetainKeeps` | src/iobase/DirIterator.cpp:138-144 | taking another reference keeps every record right, its count including the reference under way |
| `DirIterators.ReleaseKeeps` | src/iobase/DirIterator.cpp:95-104 | releasing keeps all counts and positions of the others; the last user closes the directory if the record could still be advanced |
| `DirIterators.StealShows` | src/iobase/DirIterator.cpp:22-35 | after stealing, the old record still shows its entry, from memory |
| `DirIterators.AdvanceKeeps` | src/iobase/DirIterator.cpp:41-54 | advancing moves this iterator on by one visible entry and no other iterator at all |
| `DirIterators.RunRefines` | src/iobase/DirIterator.cpp:22-237 | over every run of construct, copy, assign, advance and destroy the iterators are independent positions in fixed listings, every count is the number of sharers, of the records of one directory at most one can be advanced, and each directory is closed once, when that one goes |
| `DirIterators.DerefExactly` | src/iobase/DirIterator.cpp:188-206 | a live iterator can be dereferenced if and only if it is on an entry, and gives that entry of the filtered listing, wherever the shared stream stands |
| `DirIterators.EqualExactly` | src/iobase/DirIterator.cpp:246-256 | iterators compare equal if and only if both are past the end or both are at the same position of the same directory |
| `DirIterators.OthersBecomeReadOnly` | src/iobase/DirIterator.cpp:208-220 | advancing one of several copies makes the others read-only; the one advanced may go on if and only if it is still on an entry |
| `DirIterators.AllClosedInTheEnd` | src/iobase/DirIterator.cpp:95-104 | when no iterator is left there is no record left and every directory was closed exactly once |
| `DirIterators.Heap.Construct` | src/iobase/DirIterator.cpp:61-134 | new records and streams are those of the operation on values; nothing is made if the directory cannot be opened |
| `DirIterators.Heap.CopyConstruct` | src/iobase/DirIterator.cpp:139-144 | likewise for a copy |
| `DirIterators.Heap.Release` | src/iobase/DirIterator.cpp:95-104 | likewise for a release |
| `DirIterators.Heap.Close` | src/iobase/DirIterator.cpp:168-176 | closes the stream of a valid record once, and drops the remembered name of a record that only remembers; touches nothing else |
| `DirIterators.Heap.Destroy` | src/iobase/DirIterator.cpp:149-150 | likewise for a destructor |
| `DirIterators.Heap.Assign` | src/iobase/DirIterator.cpp:155-162 | likewise for an assignment, self-assignment included |
| `DirIterators.Heap.TakeOver` | src/iobase/DirIterator.cpp:22-35 | likewise for stealing |
| `DirIterators.Heap.Next` | src/iobase/DirIterator.cpp:41-54 | likewise for reading on |
| `DirIterators.Heap.Increment` | src/iobase/DirIterator.cpp:211-220 | likewise for pre-increment |
| `DirIterators.Heap.PostIncrement` | src/iobase/DirIterator.cpp:227-237 | copies, then advances; the copy returned stays where it was |
| `DirIterators.Heap.Dereference` | src/iobase/DirIterator.cpp:188-206 | returns the visible entry at the iterator's own position |
| `LockName.ParseLink` | src/iobase/FileNameLock.cpp:140-193 | the scanner finds the owner the specification reads off the name |
| `LockName.ParsesExactly` | src/iobase/FileNameLock.cpp:140-193 | a name is accepted if and only if it is `user@host.pid:time` with all parts there, no `@` in the user, no `:` in the host, digits for the numbers |
| `LockName.ParseOfParts` | src/iobase/FileNameLock.cpp:187-191 | the parts are unique and are what is stored, the numbers as the C conversions give them |
| `LockName.ParseOfFormat` | src/iobase/FileNameLock.cpp:132-138 | reading a printed owner gives it back, down to whole seconds, if it is one a process may print: user and host not empty, no `@` in the user, no `:` in the host, numbers that fit their types |
| `LockName.RoundTripExactly` | src/iobase/FileNameLock.cpp:132-193 | for every owner with a pid not below zero, reading what was printed gives it back, down to whole seconds, if and only if it is such an owner |
| `LockProtocol.JudgeExactly` | src/iobase/FileNameLock.cpp:229-274 | what a process finds, told from the link and the world: another one's lock if the link names another host, or another process of this host and boot that answers; one's own if it names this process and boot; a stale one if it names a process of this host that is gone or of an earlier boot; something unknown if it is no link or no lock |
| `LockProtocol.SameBootExactly` | src/iobase/FileNameLock.cpp:251-257 | two boot times are taken for one if the one in the link is known and they are at most a second apart |
| `LockProtocol.OwnLinkTells` | src/iobase/FileNameLock.cpp:122-138 | the link a process makes tells its user, host, pid and the boot time in whole seconds |
| `LockProtocol.StaleNamesNobody` | src/iobase/FileNameLock.cpp:246-274 | a link that some process finds stale names no live process |
| `LockProtocol.StaleExactly` | src/iobase/FileNameLock.cpp:246-274 | a live process finds a link stale if and only if its maker ran on this host and the host was rebooted since or runs no process with that pid |
| `LockProtocol.RebootExactly` | src/iobase/FileNameLock.cpp:251-257 | a reboot ends the processes of its host and of no other, leaves the link, and moves the boot time out of the window in which two are taken for one |
| `LockProtocol.StepKeepsSafe` | src/iobase/FileNameLock.cpp:229-368 | every step of any process, with deaths and reboots, keeps every process that relies on the lock named by the link, if stale links are removed while still stale |
| `LockProtocol.RunStaysSafe` | src/iobase/FileNameLock.cpp:229-429 | so does every interleaving of any number of processes on any number of hosts |
| `LockProtocol.AtMostOneOwner` | src/iobase/FileNameLock.cpp:322-330 | in a safe state at most one live process believes it holds the lock |
| `LockProtocol.ForeignLockStays` | src/iobase/FileNameLock.cpp:246-249 | a lock is only ever removed by a process of the host it names |
| `LockProtocol.NoLockStays` | src/iobase/FileNameLock.cpp:238-244 | something at the lock name that is no lock is never removed |
| `LockRuns.FreshStart` | src/iobase/FileNameLock.cpp:229-429 | with no process and nothing at the lock name, everything the theorems about runs ask of their start holds |
| `LockRuns.FreshCanLock` | src/iobase/FileNameLock.cpp:285-320 | there, every process that is started can take the lock, believes it and is named by the link |
| `LockRuns.OneOwnerFromFresh` | src/iobase/FileNameLock.cpp:229-429 | from there, at most one live process believes it holds the lock after every run in which stale links are removed while stale |
| `LockRuns.WholeIsReadAndProbe` | src/iobase/FileNameLock.cpp:238-265 | reading a link and probing its process in one step is the two steps one after the other |
| `LockRuns.StepStaysCalm` | src/iobase/FileNameLock.cpp:229-368 | if the lock names a live process, whoever is about to be probed is there and nobody has decided to remove a link as stale, every step keeps it so that does not end the process the lock names or one about to be probed |
| `LockRuns.DividedRunStaysCalm` | src/iobase/FileNameLock.cpp:229-429 | with every system call a step of its own, the lock is safe over every run in which no process ends while the lock names it or another has read its pid and not probed it yet; all other deaths and reboots are allowed |
| `LockRuns.RunStaysCalm` | src/iobase/FileNameLock.cpp:229-429 | with reading and probing in one step and removing in another, the lock is safe over every run in which no process ends while the lock names it |
| `LockRuns.StepKeepsStanding` | src/iobase/FileNameLock.cpp:229-429 | every live process named by the link relies on it, and the link names no special pid; every step keeps this unless it starts a process with the pid the link still names |
| `LockRuns.RunKeepsStanding` | src/iobase/FileNameLock.cpp:229-429 | so does every run in which no such pid is used again and stale links are removed while stale |
| `LockRuns.ZapSafeExactly` | src/iobase/FileNameLock.cpp:266-273 | while no pid is used again under a lock, removing a link found stale earlier is safe, and removes no lock of another host, if and only if looking again would find it stale still, or gone |
| `LockRuns.StaleRace` | src/iobase/FileNameLock.cpp:266-273 | from any state in which two processes find one link stale, a run of six steps lets both believe they hold the lock |
| `LockRuns.ProbeRace` | src/iobase/FileNameLock.cpp:256-273 | with reading and probing apart, a run in which no process dies while the lock names it lets two processes believe: the owner gives up and exits before it is probed, and a third takes the lock |
| `FileLock.TakeOverIsSafe` | src/iobase/FileNameLock.cpp:331-368 | taking over a missing or stale lock keeps the lock safe and names the taker |
| `FileLock.FileNameLock.Create` | src/iobase/FileNameLock.cpp:285-320 | one attempt makes the link exactly if nothing is there and the directory may be written to, and tells which of the two was missing |
| `FileLock.FileNameLock.Locker` | src/iobase/FileNameLock.cpp:229-278 | tells who has the lock, in all cases, and removes exactly the stale ones, which are unknown if they cannot be removed; the owner fields are those of the link in all cases in which it can be read, and unchanged otherwise |
| `FileLock.FileNameLock.TryLock` | src/iobase/FileNameLock.cpp:331-368 | undisturbed, takes the lock if and only if it is one's own, or there is none or a stale one and the directory may be written to; otherwise changes nothing; the owner fields are those of the lock it met, or of the lock it made |
| `FileLock.FileNameLock.Unlock` | src/iobase/FileNameLock.cpp:416-429 | undisturbed, removes one's own lock if the directory may be written to and resets the object in any case; leaves the lock of a live owner, whose fields it takes over |
| `FileLock.UnlockedExactly` | src/iobase/FileNameLock.cpp:416-429 | unlocking removes one's own lock or a stale one, if anything can be removed, and touches nothing else |
| `FileLock.UnlockUndoesLock` | src/iobase/FileNameLock.cpp:416-429 | after a lock was taken, unlocking finds it one's own and leaves nothing behind |

## Left out

- ExpandClean.Rewrite: does not model drive letters and shares, which exist on Windows only.
- RelativeNames.TruenameOf: does not model names that begin with `~`, nor the empty name, as `Expand.Expanded` does not.
- Expand.Expanded: does not model `~` and `~user`, which need the user database; an empty name is refused by the assertion of `Filename::operator[]`, as in the code.
- Substitute.SubstituteIn: does not model the loop in front of the variable loop that flushes through `//` and `/~` and the home directory lookup after it; it starts from the absolute name they leave.
- Substitute.DoubleDollarWithoutDollars: does not decide which errors agree when both expansions fail, nor values that hold a dollar sign.
- Arguments.Argz.CStrings: reads a list never built as an empty one; the code takes the address of the first element of an empty vector, which is undefined.
- Arguments.Argz.Build: does not model `isspace` on characters outside ASCII, where a negative `char` is undefined behaviour, nor the reallocation of strings.
- BitPattern.RepeatBit: does not model that the pattern parameter is an `unsigned int`, which cuts the patterns of words wider than twice that type.
- Swapping words, extracting bit ranges and the bit iterator: `BitOps::swap` is easy; the range operations disagree with their comments about the bit order.
- SelectPoll.Selector.Detach: does not model the cursor `m_current`, nor `IOSelectPoll::next`, whose index is one past the entry it inspected.
- SelectPoll.DetachAssertionExactly: says when the last assertion of `detach` fails; the model goes on after it as a build without assertions does.
- SelectSelect.Selector.Dispatch: does not model callbacks that attach or detach while a scan is under way.
- SelectSelect.Selector.Wait: does not model time-outs and interrupted calls.
- Kqueue.Selector.Wait: does not model a failing `kevent`, after which the log is lost, nor `clear` on a selector in use, which forgets the log but not the kernel's filters; the events `next` reads from the result vector are not modelled.
- ReadyList.Selector.Attach: does not model `m_index`, the request vector and the fallback selector beside the list; what `detach` does to remembered indices is `IndexStillRightExactly`.
- ReadyList.Selector.Detach: does not model the request vector and the fallback selector, which are left as `Attach` leaves them out.
- ReadyList.Selector.SetMask: does not model the mask kept in the request itself.
- ReadyList.Selector.Resync: one report of the fallback selector; the loop over its reports is not modelled.
- ReadyList.Selector.NextReady: returns the ready bits; cutting them to the request's mask needs the request vector.
- ReadyList.Selector.Notify: one queued signal; the draining loop of `wait` and the order signals come in are not modelled.
- DirStream.ReadEntry: does not model a failing `readdir`, which throws.
- DirIterators.ConstructKeeps: does not model it either.
- DirIterators.Heap.Construct: does not model failing `readdir` and `closedir` calls, nor directories that change while they are read.
- DirIterators.Heap.Close: only as `release` calls it; a client's own `close` on a read-only copy deletes the remembered name, and the destructor deletes it again.
- DirIterators.Heap.CopyConstruct: records and iterators are entries of maps from addresses, so sharing is by equal addresses rather than by object references; fresh addresses are parameters.
- LockName.ParseLink: the names hold no NUL; the overflow of seconds times 1000000000 in a 64-bit integer is not modelled.
- LockProtocol.StepKeepsSafe: is weaker than safety over all steps, which `LockRuns.StaleRace` shows to fail; the condition is that a stale link is removed while it is stale, and `LockRuns.ZapSafeExactly` says when that is needed.
- LockProtocol.RunStaysSafe: needs the same condition at every removal.
- LockProtocol.ForeignLockStays: needs the same condition.
- LockProtocol.NoLockStays: needs the same condition.
- LockRuns.RunStaysCalm: needs that no owner dies while the lock names it, as `LockRuns.StaleRace` starts with a dead owner; reading and probing are one step, as `LockRuns.ProbeRace` shows a failing run with two.
- LockRuns.DividedRunStaysCalm: calls that fail for want of permission are part of `FileLock` only; in the interleaved runs `symlink` fails only if something is there and `unlink` never.
- FileLock.FileNameLock.Create: `symlink` fails for two reasons, something being there and a directory that may not be written to.
- FileLock.FileNameLock.Locker: `unlink` fails for one reason, a directory that may not be written to.
- FileLock.FileNameLock.TryLock: other processes stand still during the call; interleavings are the subject of `LockProtocol` and `LockRuns`.
- FileLock.FileNameLock.Unlock: other processes stand still during the call.
- The forced variant of `tryLock`, which removes any lock: nothing calls it.
- Hosts, users, clocks and the several ways of finding the boot time: parameters.
- Sockets, pipes, subprocesses, temporary files, logging and everything for Windows: system-call plumbing.
- `sansVersions`, `PODVector`, `Sequence::limits`, `IOSelectDevPoll`, `IOInput::readv`: unfinished, or at odds with their comments throughout.
