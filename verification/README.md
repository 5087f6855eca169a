# A verified model of nolibc's algorithms

nolibc is a header-only C library. Most of it is one-line system calls; five files
hold real algorithms, and this project models those and proves what they promise:

- the printf machine of `stdio.h`, its two callbacks, `vsnprintf`, `vfprintf`, `_fwrite`, `fwrite`, `strerror` and `vsscanf`;
- number printing and parsing in `stdlib.h`, on machine words with explicit modulus, for 32-bit and 64-bit `long`;
- `getopt`, with the state that survives between calls;
- the heap over `mmap`, against a mapper that places or refuses every mapping as it likes;
- bounded string functions and both `memmove` implementations (`string.h`, and the x86-64 assembly).

Loops, buffers and mutable state are methods, arrays and classes. Each is proved
against a specification, and the laws are lemmas about the specification.

| file | contents |
|---|---|
| `CTypes.dfy`, `Arith.dfy` | words, C strings, buffers; division, powers and shifts |
| `Numerals.dfy` | what a numeral is: value, canonical form, length |
| `NumberPrint.dfy` | the divide-free digit loops |
| `NumberParse.dfy`, `Overflow.dfy`, `StrTo.dfy` | `__strtox`, when its overflow test is right, the strto* functions |
| `NumberText.dfy` | every text the strto* functions read, taken apart into white space, sign, mark, digits, rest |
| `NumberRoundTrip.dfy` | printing against parsing; `atol` |
| `CStrings.dfy`, `Memory.dfy` | string functions; overlapping copies |
| `Format.dfy` | `Render`, the meaning of a format, and the chunks in which it is flushed |
| `Delivery.dfy`, `Bounded.dfy`, `WriteErrors.dfy` | budgets and short writes; when output is cut correctly; write errors |
| `Printf.dfy` | the machine and the functions built on it |
| `Pieces.dfy` | what a format prints, said of the pieces it is written from |
| `Scanf.dfy`, `ScanText.dfy` | `vsscanf`; what a scan stores and how it ends, said of the parts of format and text |
| `FormatScan.dfy` | what printf writes, scanf reads back |
| `GetoptReference.dfy`, `Getopt.dfy` | a recursive parser of whole command lines, the resumable parser |
| `GetoptDeclarations.dfy`, `GetoptRoundTrip.dfy` | option strings as declarations; command lines written for them and the calls they give |
| `Heap.dfy` | `malloc`, `calloc`, `realloc`, `free` over flat memory |

The parsers and printers are proved equal to functions that read a text the way the
code does (`ParseHead`, `Scan`, `Render`, `ParseWords`). What those functions mean is
then proved against texts that are *written*: from white space, sign, mark and digits
(`NumberText.dfy`), from pieces and their arguments (`Pieces.dfy`), from format and text
side by side (`ScanText.dfy`), from declared options (`GetoptRoundTrip.dfy`). Every number
text, option string and command line is written so.

How the modules rest on each other: the machine in `Printf.dfy` calls the digit loops
of `NumberPrint.dfy`; `Scanf.dfy` calls the parser of `NumberParse.dfy`; the
format/scan round trip joins `Pieces.dfy` and `ScanText.dfy`, whose numbers are those of
`NumberText.dfy`; `Printf.VSNPrintf` uses the truncation theorem of `Bounded.dfy`, and
`Printf.VFPrintf` the write errors of `WriteErrors.dfy`.

Where the code differs from its comments or from ISO C, the model follows the code:
only digits directly before a conversion letter are a width (a `%` prints itself with
the digits before it), padding does not use up the budget of `vsnprintf`, `%c` of 0
prints nothing, `vsscanf` counts a number pattern as matched even when no digit was
there, and `strstr` never finds an empty needle.

Four properties hold only conditionally, and the condition is proved to be exact:

- ERANGE from `__strtox` is exact for every run of digits if and only if
  `(limit + 1) * (base - 1) < 2^64` (`Overflow.ExactIffSafe`). Every 32-bit limit meets
  it; of the 64-bit limits only LLONG_MAX and LLONG_MIN do, and only in base 2 (and in
  base 1, where 0 is the only digit). As long as the number itself is below 2^64 it is
  right for every limit and base (`Overflow.WordRun`). An input that fails is
  21000000000000000000 (`StrTo.UnnoticedOverflow`).
- `vsnprintf` stays within `size` and returns the length of the text if and only if the
  padded text is at most `size` long or no text is padded, not even where the budget cuts
  it (`Bounded.TruncatesIffClean`, and the ensures of `Printf.VSNPrintf`). That is so at
  every size if and only if every width is 0, or 1 before a non-empty text, or the whole
  text is one blank (`Bounded.AlwaysTruncatesIffNarrow`). Calls that fail are
  `snprintf(buf, 1, "%2d", 1)`, which writes two bytes (`Bounded.WritesPastSize`), and
  `snprintf(buf, 2, "ab%1s", "")`, which returns 2 and not 3 (`Bounded.Miscounts`).
- A prefix of the text arrives on a descriptor whatever `write` does if and only if
  nothing but blanks follows the first blank of padding (`WriteErrors.PrefixIffHarmless`);
  `WriteErrors.PaddingErrorIsLost` is a call that fails.
- A block that `malloc` returns has room for the request if and only if the header and the
  request together fit in a size_t (`Heap.MappingSizeFits`), and exactly then can `realloc`
  copy any smaller block there (`Heap.CopyFitsIff`). `malloc(SIZE_MAX - 9)` can return a
  block of 4080 bytes (`Heap.WrappedRequest`).

## Model

| member | source | states |
|---|---|---|
| `Numerals.NumeralValue` | stdlib.h:393-413 | the reference numeral of a number denotes that number, in every base |
| `Numerals.CanonicalIsNumeral` | stdlib.h:384-391 | a lower-case digit string without leading zero is the one numeral of its value, so "the" decimal or hex text of a number is unique |
| `Numerals.NumeralLength` | stdlib.h:248-255 | a numeral has at most k digits exactly when its number is below base^k |
| `NumberPrint.Utoa` | stdlib.h:257-277 | `utoa_r` at 32 and 64 bits (the second is also `u64toa_r`, lines 393-413): the buffer gets the canonical decimal and a NUL, nothing else changes, the length is returned |
| `NumberPrint.PowerOfTen` | stdlib.h:265-266 | `lim` reaches 10^pos without wrapping in its word |
| `NumberPrint.SubtractDigit` | stdlib.h:269-270 | repeated subtraction gives quotient and remainder |
| `NumberPrint.ShownStep` | stdlib.h:268-272 | at every position the remainder yields a digit below the base, and the text shown is the numeral's prefix down to that position |
| `NumberPrint.Utoh` | stdlib.h:217-236 | the subtract-and-shift loop writes the minimal lower-case hex numeral, on 32-bit and 64-bit words |
| `NumberPrint.U64toh` | stdlib.h:349-372 | both the 64-bit and the split 32-bit nibble path write that same numeral |
| `NumberPrint.SplitNibble` | stdlib.h:356-362 | shifting within a 32-bit half finds the same nibble as shifting the 64-bit word |
| `NumberPrint.Itoa` | stdlib.h:286-298 | signed decimal of any two's complement word, the most negative included (also `i64toa_r`, lines 422-434) |
| `NumberPrint.BufferSizes` | stdlib.h:44-48 | every conversion fits its documented buffer, and the longest value fills it exactly |
| `NumberParse.StrToXBody` | stdlib.h:457-527 | `__strtox` returns the value, end and errno of the reference parse |
| `NumberParse.HeadBody` | stdlib.h:469-493 | spaces, sign and 0x/0 prefixes are consumed as the reference head says, for every string and base |
| `NumberParse.DigitLoop` | stdlib.h:495-517 | the loop consumes the whole digit run and carries the wrapped value and sticky flag |
| `Overflow.WordRun` | stdlib.h:510-516 | as long as a run's value is below 2^64 it is exact and the flag says whether it exceeds the limit, for every limit and base |
| `Overflow.InRangeRun` | stdlib.h:510-516 | a run of digits whose value is within the limit gives exactly that value and never raises the flag |
| `Overflow.ExactIffSafe` | stdlib.h:510-516 | the flag equals "the true value exceeds the limit" for all runs of all lengths iff (limit+1)*(base-1) < 2^64 |
| `Overflow.SafeLimits` | stdlib.h:529-562 | which limits of the strto* family meet that condition in which bases |
| `StrTo.EndIsBehindDigits` | stdlib.h:524-525 | whether or not overflow happened, the end pointer stands behind the longest run of digits valid in the effective base |
| `StrTo.InRangeConverted` | stdlib.h:519-526 | within the limit: the written number modulo the word, and no errno |
| `StrTo.OutOfRangeSaturated` | stdlib.h:519-526 | beyond the limit, if the number fits in 64 bits or the limit meets the condition: the limit itself, with ERANGE |
| `StrTo.LongSaturates` | stdlib.h:529-533 | 32-bit `strtol` clamps the true value to LONG_MIN..LONG_MAX and reports ERANGE iff it had to, for digit runs of any length |
| `StrTo.UnsignedLongSaturates` | stdlib.h:535-539 | 32-bit `strtoul` likewise; a minus sign negates the saturated magnitude |
| `StrTo.LongLongSaturates` | stdlib.h:541-545 | `strtoll` clamps the true value to LLONG_MIN..LLONG_MAX and reports ERANGE iff it had to, for every magnitude below 2^64 in any base |
| `StrTo.UnsignedLongLongInRange` | stdlib.h:547-551 | `strtoull` is exact on every magnitude below 2^64, negated modulo 2^64 after a minus |
| `StrTo.NoticedOverflow` | stdlib.h:515-516 | `strtoll` of 2^63 in decimal returns LLONG_MAX with ERANGE |
| `StrTo.UnnoticedOverflow` | stdlib.h:515-516 | `strtoull` of 21000000000000000000 returns 2553255926290448384 without ERANGE |
| `NumberText.PartsFound` | stdlib.h:469-517 | for every base, a text written as white space, a sign, a mark (0x or 0X in base 16 and 0, 0 for octal in base 0), digits in either case and a rest that cannot continue them is taken apart into just those |
| `NumberText.EveryText` | stdlib.h:469-517 | every text is written so, in every base |
| `NumberText.StrToLReads` | stdlib.h:529-545 | `strtol` and `strtoll` of such a text: the sign and digits' number clamped to the word, the end behind the digits, ERANGE iff clamped |
| `NumberText.StrToULReads` | stdlib.h:535-551 | `strtoul` and `strtoull`: the saturated magnitude, negated in the word after a minus, and the end |
| `NumberText.InvalidBase` | stdlib.h:464-467 | EINVAL, 0 and an end at the start iff the base is not in 0..36 |
| `NumberText.DigitIs` | stdlib.h:498-505 | a digit of value d is the d-th of 0-9a-z in either case, and no other character |
| `NumberRoundTrip.UnsignedRoundTrip` | stdlib.h:349-413 | `strtoul` of `u64toa` in base 10 and of `u64toh` in base 16, with or without 0x, gives the word back and stops behind it |
| `NumberRoundTrip.UnsignedRoundTripAnyBase` | stdlib.h:484-493 | the same in base 0, where "0" is read as octal |
| `NumberRoundTrip.SignedRoundTrip` | stdlib.h:422-434 | `strtol` of the signed decimal gives every value back, LONG_MIN and LLONG_MIN included |
| `NumberRoundTrip.Atol` | stdlib.h:82-102 | `atol` is the signed digit value wrapped into the word |
| `NumberRoundTrip.AtolOfItoa` | stdlib.h:286-298 | printing into a 21-byte buffer and parsing it with `atol` is the identity |
| `CStrings.StrNCmp` | string.h:278-288 | zero iff the first `size` characters agree; otherwise the difference at the first place where they do not |
| `CStrings.MemCmp` | string.h:42-51 | zero iff the ranges are equal; otherwise the first byte difference |
| `CStrings.StrStr` | string.h:315-332 | the leftmost occurrence, or NULL iff there is none or the needle is empty |
| `CStrings.StrLCat` | string.h:215-238 | returns min(strlen(dst), size) + strlen(src); stores the concatenation cut to size-1 and a NUL; a destination without NUL in `size` bytes is unchanged |
| `CStrings.StrLCpy` | string.h:241-257 | returns strlen(src); stores the source cut to size-1 and a NUL, nothing when size is 0 |
| `Memory.MemMove` | string.h:59-77 | for any overlap the destination bytes become the original source bytes and no other byte changes, with `pos` wrapping in size_t |
| `Memory.RepMovsb` | arch-x86_64.h:209-223 | the repeated move in either direction copies correctly under the condition its direction needs |
| `Memory.MemMoveX86` | arch-x86_64.h:203-223 | the assembly has the same effect as the portable memmove, returns the destination and clears the direction flag |
| `Memory.DirectionsDiffer` | arch-x86_64.h:211-214 | the two direction tests disagree exactly when the destination lies beyond the source region |
| `Pieces.PrintsPieces` | stdio.h:270-399 | for every list of literals, percent signs and `%c %s %d %u %x %p %m` fields with any flags, `l`s, `j`s and width: the pieces' texts in order, each field right-aligned and using its own argument once, later arguments unused, an unfinished field printing nothing |
| `Pieces.PrintsInColumns` | stdio.h:288-294 | for every k below 2^32, the decimal numeral of k before a letter right-aligns the field's text in k columns |
| `Pieces.PaddedIsAligned` | stdio.h:378-382 | a padded text is max(width, length) long, ends in the text and is blank before it |
| `Pieces.PrintPieces` | stdio.h:477-487 | `snprintf` of such a format with room stores those texts and a NUL and returns their length |
| `Format.ChunksRender` | stdio.h:288-395 | the flushed chunks, padded and joined, are the text the format denotes character by character |
| `Delivery.WriteAllDelivers` | stdio.h:198-211 | under any short writes and errors a prefix arrives in order, and `_fwrite` reports success iff all of it did |
| `Delivery.StopsAtFirstError` | stdio.h:204-208 | every write() but a last, failing one took something; after an error there is no further call |
| `Delivery.DriveBuffer` | stdio.h:467-474 | into a buffer the flush loop stores what the budget lets through and counts text and padding modulo 2^32 |
| `Delivery.Untruncated` | stdio.h:375-387 | if the padded text is shorter than the budget, all of it goes out and its length is counted |
| `Delivery.TruncationIffUnpadded` | stdio.h:375-382 | the bytes under a budget stay within it at every budget, and are the truncated text, iff nothing is padded but one final blank |
| `Delivery.NoWidthsUnpadded` | stdio.h:375-387 | chunks without widths meet that condition, and are counted in full at every budget |
| `Delivery.WidthFreeChunks` | stdio.h:288-294 | a format without widths yields only chunks without widths |
| `Delivery.DescriptorPrefix` | stdio.h:375-387 | for any format, what is counted has arrived, what arrived uncounted is the beginning of one failing text, no more arrives than the text is long, and everything is counted when that much arrives; without widths it is a prefix of the text |
| `Delivery.EverythingArrives` | stdio.h:375-387 | when every write() takes something, the whole text arrives, blanks included, and is counted, for any format |
| `Bounded.CutAt` | stdio.h:375-384 | whatever the widths: the chunks before the end of the budget go out whole, then what fits of the next text, aligned in its width as it is cut |
| `Bounded.TruncatesIffClean` | stdio.h:375-387 | at one given size: at most `size` bytes, those of the text, and its length counted, iff the padded text fits or nothing is padded up to and at the cut |
| `Bounded.AlwaysTruncatesIffNarrow` | stdio.h:375-387 | the same at all sizes from 1, iff every width is 0, or 1 before a non-empty text, or the whole text is one blank |
| `Bounded.WritesPastSize` | stdio.h:375-384 | for `"%2d"` of 1 at size 1 two bytes go out |
| `Bounded.Miscounts` | stdio.h:375-387 | for `"ab%1s"` of "" at size 2 two bytes are counted where the text has three |
| `WriteErrors.PaddingErrorIsLost` | stdio.h:378-382 | for `"%2d"`, an error on the blank is not noticed and the digit follows without it |
| `WriteErrors.PrefixIffHarmless` | stdio.h:375-387 | for every sequence of write results only a prefix arrives, iff nothing but blanks follows the first blank of padding |
| `WriteErrors.HarmfulCall` | stdio.h:378-384 | otherwise there is one write() call whose failure leaves something else on the descriptor |
| `Printf.Printf` | stdio.h:270-399 | the machine does to either sink, and returns, exactly what delivering the format's chunks means; buffer bytes beyond are untouched |
| `Printf.ReadEscape` | stdio.h:284-365 | one turn inside an escape sequence: field, literal or modifier, and the remaining chunks |
| `Printf.Flush` | stdio.h:374-387 | the flush block is one step of the delivery, budget, padding, failure and count included |
| `Printf.PadLoop` | stdio.h:378-382 | the padding loop, which ends at an error without reporting it |
| `Printf.ReadWidth` | stdio.h:288-294 | the width is the digit run's value in an unsigned int |
| `Printf.ConvertNumber` | stdio.h:296-336 | `%c %d %u %x %p` with any length prefix: 21 bytes of tmpbuf always suffice and hold the right text |
| `Printf.StrError` | stdio.h:648-655 | the 18-byte buffer holds "errno=" and any int, after any earlier call |
| `Printf.BoundedIsTruncation` | stdio.h:477-487 | without widths, at every size from 1: the text cut to size-1, a NUL, no byte beyond `size`, and the full length |
| `Printf.WholeTextFits` | stdio.h:477-487 | with room for the padded text, widths or not: all of it, a NUL, and its length |
| `Printf.VSNPrintf` | stdio.h:477-487 | the exact buffer and result for every format; it stays within `size` and returns the text's length iff the size is clean, and then stores the text cut to size-1 and a NUL; both results above for the call itself |
| `Printf.VFPrintf` | stdio.h:407-410 | for any format the result is at most what arrived, and equal to it when as much as the text's length arrived; if every write takes something the whole text arrives; without widths, or when only blanks follow the first padding, a prefix of the text arrives whatever write does |
| `Printf.Sink.Callback` | stdio.h:401-474 | the two callbacks: append to the buffer by memcpy, or deliver through `_fwrite` |
| `Printf.Sink.FWriteAll` | stdio.h:198-211 | the retry loop is the reference delivery |
| `Printf.Sink.FWrite` | stdio.h:214-224 | a result k < nmemb means between k*size and (k+1)*size-1 bytes went out; k = nmemb means all |
| `Scanf.VSScanf` | stdio.h:522-605 | matches, stored words and EILSEQ are those of the recursive scan |
| `Scanf.ScanPattern` | stdio.h:534-582 | one pattern: its length prefix, its destination type, what it consumes |
| `ScanText.BlankScans` | stdio.h:586-591 | any run of white space in the format takes any run in the text, even none, and the scan goes on behind both |
| `ScanText.PartsScan` | stdio.h:522-605 | a text written for its format is consumed part by part: white runs, literals, `%%`, and `%d %u %x %X %p` numbers with leading white space, either sign, 0x and digits in either case; every value is stored, in order, in its type |
| `ScanText.ScansText` | stdio.h:522-605 | the whole call: the number of values, and the end by mismatch (EOF only before any value), by a missing percent sign, by an unknown pattern (EILSEQ) or by the end of the format |
| `FormatScan.ScanReadsBack` | stdio.h:522-605 | scanning the printed text by its own format matches every conversion and stores every argument, extreme values included |
| `FormatScan.PrintThenScan` | stdio.h:477-605 | `snprintf` with room followed by `sscanf` returns all values |
| `FormatScan.ErrnoReadsBack` | stdio.h:648-655 | the text of errno is "errno=" and the number that `strtol` reads behind it |
| `Getopt.Getopt.Search` | getopt.h:68-72 | the search loop finds the first occurrence |
| `Getopt.Getopt.Lookup` | getopt.h:65-98 | the globals and result after a letter, by its kind |
| `Getopt.Getopt.Next` | getopt.h:25-99 | each call returns the next event of the reference parse and leaves the rest, keeps the position invariant and makes progress; -1 comes with optind where the parse stops |
| `Getopt.Getopt.ParseAll` | getopt.h:25-99 | calling until -1 ends, and the results, optarg, optopt and final optind are those of the recursive parser, for every argv and option string |
| `GetoptDeclarations.OptStringDescribes` | getopt.h:65-82 | from an option string written as a mode, leading colons and declarations, the parser takes each letter's first declaration (none, required, optional by 0, 1, 2 colons), no other letter and no colon, and the mode and silence that lead it |
| `GetoptDeclarations.EveryOptString` | getopt.h:65-82 | every option string is written so |
| `GetoptRoundTrip.ClusterParses` | getopt.h:54-98 | the letters of any option word legal for the declarations parse to its options, undeclared letters included |
| `GetoptRoundTrip.OptionsRoundTrip` | getopt.h:37-98 | words in any legal mix of clustered, attached and separate style, and operands in order, parse back to exactly what they were written from |
| `GetoptRoundTrip.DriveCommandLine` | getopt.h:25-99 | driving getopt over such a line gives, call by call, the letter, '?' for an undeclared one, 1 for an operand in order, ':' or '?' for a missing argument, with optarg and optopt, and stops at the first operand |
| `GetoptRoundTrip.Drive` | getopt.h:25-35 | the same with whatever optarg and optopt were left, at the start or restarted by optind 0 |
| `GetoptRoundTrip.EveryLine` | getopt.h:25-99 | every list of words is such a line, for any declarations |
| `Heap.MappingSizeFits` | stdlib.h:150-152 | the mapping is whole pages; a mapping obtained has room for the request iff header plus request fit in a size_t |
| `Heap.CopyFitsIff` | stdlib.h:199-203 | where the mapper grants the mapping, the copy of every smaller block fits iff header plus new size fit in a size_t |
| `Heap.WrappedRequest` | stdlib.h:150-152 | a request of SIZE_MAX - 9 is mapped as one page: 4080 bytes, too few for the copy of an 8176-byte block |
| `Heap.TotalWithout` | stdlib.h:119 | the sum of mapping lengths drops by exactly the mapping removed |
| `Heap.FreshBlock` | stdlib.h:153-159 | a fresh mapping with its header written adds one zeroed block and changes no other |
| `Heap.BlockRemoved` | stdlib.h:111-120 | unmapping removes one block and changes no other |
| `Heap.BlockWritten` | stdlib.h:203 | writing inside a block changes that block and no header or other block |
| `Heap.CheckedProduct` | stdlib.h:165-170 | the division test of `calloc` detects exactly the products that wrap |
| `Heap.Process.Malloc` | stdlib.h:146-160 | a new zeroed block at the mapper's place exactly when it offers a page-aligned one apart from all mappings, no change otherwise |
| `Heap.Process.Calloc` | stdlib.h:163-177 | ENOMEM iff the product wraps; otherwise a block whose every byte is 0, with room for the product when header and product fit a size_t |
| `Heap.Process.Realloc` | stdlib.h:180-206 | the pointer is kept iff the capacity suffices; otherwise all old bytes move and the old mapping goes; on failure nothing changes |
| `Heap.Process.Free` | stdlib.h:111-120 | exactly one block goes, and with it its header's and its own bytes of mapping |
| `Heap.RunKeepsOthers` | stdlib.h:111-206 | in any run, a block that no call names is there at the end with the same contents |
| `Heap.Process.Execute` | stdlib.h:111-206 | every call is one transition of the abstract heap of blocks, whatever the mapper decides |
| `Heap.Process.Run` | stdlib.h:111-206 | any program of heap calls and stores is a run of the abstract heap, and after it mappings are disjoint whole pages, headers equal their lengths, and mapped bytes equal the sum |

## Left out

- System calls, startup code and the other arch-*.h files: no algorithm. `write` returns an error or a count up to its size, `mmap` a fresh zeroed place or a failure, `munmap` takes one whole mapping; in each case any choice the model's oracle makes.
- The text that `getopt` prints to stderr, and FILE pointer encoding: not part of this model.
- errno set by the strto* calls inside `vsscanf`; only EILSEQ is kept.
- `va_list` mechanics: arguments are a sequence of words and strings; a format whose arguments do not match is excluded, as in C.
- Builds with NOLIBC_IGNORE_ERRNO, where `%m` is an unknown modifier: the model has the `%m` of the default build.
- Signedness of `char`: characters compare and convert as unsigned. With a signed char, an option letter 0xff would be returned as -1, and a run of 128 or more `l` modifiers would wrap at 128 instead of 256.
- ScanText.PartsScan: the digits of a number denote less than 2^64 (for `%p` less than 2^width), because beyond that overflow can go unnoticed; literals are single bytes.
- NumberText.StrToLReads: for a 64-bit word the digits denote less than 2^64, for the same reason; `StrTo.OutOfRangeSaturated` has the exact condition beyond it.
- NumberText.StrToULReads: the same bound.
- The length of one format's text in `vfprintf` beyond SIZE_MAX: the prefix property is stated below it.
- Printf.VSNPrintf: needs a size of at least 1, because at size 0 the code writes its NUL before the buffer; and the array has room for the bytes that the code itself writes, which for a padded text can be more than `size` (the contract says when). An array of `size` bytes is enough at every clean size (`Printf.CleanRoom`).
- Heap.Process.Realloc: a copy longer than the new mapping is an access outside it, and such calls are excluded; `Heap.CopyFitsIff` says that only sizes within the header of SIZE_MAX allow them.
- Heap.Process.Run: a call on a pointer that is not live, or a `realloc` with such a copy, is undefined in C, and such steps are not made.
- The header of a block is one cell of memory that holds its length; its layout in bytes is not modelled.
- Heap memory, the sequence of descriptor bytes and the mapper's table are values held in fields; arrays are used where the C code has buffers.
- ctype.h, crt.h, sys/auxv.h, types.h, `memset`, `strcpy`, `strncat`, `strchr` and the like: one loop or one expression each.
- `fgets`, `puts`, `perror`, `setvbuf`: direct calls of what is modelled.
