# UTF-8 strings, file-system paths and integer vector/matrix math, in Dafny

This project models four parts of the ChaosCore / ArcaneCore C++ libraries and
proves properties of the model:

* **`chaos::str::UTF8String`**: a zero-terminated byte buffer holding UTF-8 text,
  with its symbol count.
  * The model covers the constructors, assignment, concatenation and repetition.
  * It covers the symbol/byte index conversions, the symbol and code-point
    accessors, and equality and the code-point order.
  * It covers `starts_with`/`ends_with`, `find_first`/`find_last`, `substring`,
    `split` and `remove_duplicates`.
  * It covers the `is_int`/`is_uint`/`is_float` tests, `to_bool`, and the
    checks that guard the integer conversions.
* **`arc::io::sys::Path`**: a vector of string components, Unix branch.
  * It covers parsing a path text into components and rendering back to Unix
    text.
  * It covers equality and ordering, appending, joining, insertion, removal and
    clearing, and the front, back and extension accessors.
* **`VectorMath.hpp`, integer part**: componentwise `min`, `max`, both `clamp`
  overloads, `dot`, `dot_vector`, `cross` and `magnitude2`.
* **`MatrixMath.hpp`**: the generic `transpose` and its 3x3, 3x4 and 4x4
  overloads.

Layout, one module per file:

| file | module | contents |
|---|---|---|
| `base.dfy` | `Base` | the error kinds thrown (`ValueError`, `IndexOutOfBoundsError`, `ConversionDataError`), `Result` in place of exceptions and `Option` in place of `npos` |
| `utf8.dfy` | `Utf8` | the byte layer: width of a lead byte, symbol runs, symbol count, byte offsets, `strlen`/`strcmp`, code-point decoding and RFC 3629 encoding |
| `symbols.dfy` | `SymbolSeq` | reference definitions over sequences of symbols: matching, first/last occurrence, split and join, duplicate removal, lexicographic order |
| `utf8string.dfy` | `Strings` | the class `Utf8String` (`data`: the buffer with its terminator; `length`: the symbol count) |
| `path.dfy` | `Paths` | the class `Path` (`components`, the contents of its component strings) |
| `vectormath.dfy` | `VectorMath` | vectors as sequences of integers |
| `matrixmath.dfy` | `MatrixMath` | matrices as sequences of column vectors |

Each string method is proved against a reference function over the string's
symbols, `Syms()`, and the reference functions carry the lemmas: split then
join is the identity, duplicate removal equals squeezing for a one-symbol
separator, the order is asymmetric and transitive, and so on.

Each path operation is stated over `components`. The path text is tied to its
parse by `RenderParsed`: rendering a parsed text gives the text with its runs of
"/" collapsed and a trailing "/" dropped.

## Model

| member | source | states |
|---|---|---|
| `Utf8.Width` | src/cxx/chaoscore/base/str/UTF8String.cpp:808-833 | a lead byte announces a symbol of 1 to 4 bytes |
| `Utf8.SymbolCount` | src/cxx/chaoscore/base/str/UTF8String.cpp:882-888 | the counting loop's result: at least one symbol per 4 bytes, at most one per byte, 0 for no bytes |
| `Utf8.Symbols` | src/cxx/chaoscore/base/str/UTF8String.cpp:880-888 | the runs the counting loop steps over, as many as it counts |
| `Utf8.FlattenSymbols` | src/cxx/chaoscore/base/str/UTF8String.cpp:880-888 | the runs glue back into the bytes they were cut from |
| `Utf8.SymbolsOfFlatten` | src/cxx/chaoscore/base/str/UTF8String.cpp:880-888 | complete runs glued together are cut back into the same runs, aligned |
| `Utf8.SymbolsConcat` | src/cxx/chaoscore/base/str/UTF8String.cpp:272-290 | for an aligned first part, the symbols and count of a concatenation are those of the parts |
| `Utf8.ConcatCountNeedsAlignment` | src/cxx/chaoscore/base/str/UTF8String.cpp:272-290 | without alignment the count is not additive: [0xC3] and [0x41] count 1 each but 1 together |
| `Utf8.RepeatSymbols` | src/cxx/chaoscore/base/str/UTF8String.cpp:292-313 | repeating aligned text `count` times multiplies its symbol count by `count` |
| `Utf8.SymbolAt` | src/cxx/chaoscore/base/str/UTF8String.cpp:740-762 | symbol `k` is the bytes from its offset for the width its lead byte announces |
| `Utf8.AlignedSymbol` | src/cxx/chaoscore/base/str/UTF8String.cpp:682-693 | in aligned text the run of symbol `k` lies wholly inside the content: it is exactly the bytes from its offset for the width its lead byte announces |
| `Utf8.CStrLen` | src/cxx/chaoscore/base/str/UTF8String.cpp:851-855 | `strlen`: the index of the first zero byte |
| `Utf8.CStr` | src/cxx/chaoscore/base/str/UTF8String.cpp:80-86 | what `strcmp` reads: a zero-free prefix, the whole text when it has no zero |
| `Utf8.TextEquals` | src/cxx/chaoscore/base/str/UTF8String.cpp:80-86 | on zero-free texts `strcmp(...) == 0` holds exactly when the bytes are equal |
| `Utf8.CodePoint` | src/cxx/chaoscore/base/str/UTF8String.cpp:707-738 | the masks decode a run to a value below 0x200000; a one-byte run is its byte |
| `Utf8.CodePoints` | src/cxx/chaoscore/base/str/UTF8String.cpp:93-116 | one code point per symbol, each that symbol's decoding |
| `Utf8.EncodeDecode` | src/cxx/chaoscore/base/str/UTF8String.cpp:707-738 | decoding the RFC 3629 encoding of any scalar value gives it back, with no zero byte for non-zero values |
| `Utf8.SymbolValueInjective` | src/cxx/chaoscore/base/str/UTF8String.cpp:695-705 | distinct runs have distinct little-endian symbol values |
| `Utf8.WellFormedSymbols` | src/cxx/chaoscore/base/str/UTF8String.cpp:880-888 | every symbol of well-formed text is a complete run free of zero bytes |
| `Utf8.SliceSymbols` | src/cxx/chaoscore/base/str/UTF8String.cpp:559-581 | any slice of the symbols of well-formed text is the symbol list of well-formed text |
| `Utf8.CStrTerminated` | src/cxx/chaoscore/base/str/UTF8String.cpp:80-86 | for a buffer with a single terminating zero, `strcmp` reads all bytes before it |
| `Utf8.SymbolText` | src/cxx/chaoscore/base/str/UTF8String.cpp:682-693 | the text of the string `get_symbol` builds: the run less a final zero byte, so the run itself when zero-free |
| `Utf8.Keys` | src/cxx/chaoscore/base/str/UTF8String.cpp:80-86 | what `strcmp` reads of each symbol, one per symbol |
| `Utf8.SymbolTextCStr` | src/cxx/chaoscore/base/str/UTF8String.cpp:682-693 | `strcmp` on the buffer of a symbol string reads the same bytes as on the run itself |
| `Utf8.SymbolIsAscii` | src/cxx/chaoscore/base/str/UTF8String.cpp:504 | `strcmp` equates a complete run with a one-byte ASCII literal exactly when the run is that byte |
| `Utf8.KeysWhenWellFormed` | src/cxx/chaoscore/base/str/UTF8String.cpp:80-86 | on well-formed text, what `strcmp` reads of each symbol is the symbol itself |
| `Utf8.OffsetAtEnd` | src/cxx/chaoscore/base/str/UTF8String.cpp:795-806 | when the walk of the symbol runs lands exactly on the end of the content, the content is aligned |
| `SymbolSeq.Find` | src/cxx/chaoscore/base/str/UTF8String.cpp:356-383 | the leftmost match at or after `i`, no match before it, or none at all |
| `SymbolSeq.FindLast` | src/cxx/chaoscore/base/str/UTF8String.cpp:385-413 | the rightmost match with none after it, or none at all |
| `SymbolSeq.FindIs` | src/cxx/chaoscore/base/str/UTF8String.cpp:356-383 | a match with no match before it is what `find_first` returns |
| `SymbolSeq.FindNone` | src/cxx/chaoscore/base/str/UTF8String.cpp:356-383 | when no start up to the last possible one matches, `find_first` returns `npos` |
| `SymbolSeq.FindLastIs` | src/cxx/chaoscore/base/str/UTF8String.cpp:385-413 | a match with no match after it is what `find_last` returns |
| `SymbolSeq.FindLastNone` | src/cxx/chaoscore/base/str/UTF8String.cpp:385-413 | when no start matches, `find_last` returns `npos` |
| `SymbolSeq.SplitJoin` | src/cxx/chaoscore/base/str/UTF8String.cpp:415-451 | joining the pieces of a split with the delimiter gives the text back |
| `SymbolSeq.SplitCount` | src/cxx/chaoscore/base/str/UTF8String.cpp:415-451 | a split yields one piece more than the number of left-to-right non-overlapping matches |
| `SymbolSeq.SplitPiecesFree` | src/cxx/chaoscore/base/str/UTF8String.cpp:415-451 | no piece of a split contains the delimiter |
| `SymbolSeq.SplitMembers` | src/cxx/chaoscore/base/str/UTF8String.cpp:415-451 | every symbol of every piece is a symbol of the text |
| `SymbolSeq.SplitFirstEmpty` | src/cxx/chaoscore/base/str/UTF8String.cpp:415-451 | the first piece is empty exactly when the text is empty or starts with the delimiter |
| `SymbolSeq.JoinSnoc` | src/cpp/arcanecore/io/sys/Path.cpp:267-290 | joining one more piece appends the delimiter and that piece |
| `SymbolSeq.DropCopies` | src/cxx/chaoscore/base/str/UTF8String.cpp:480-486 | the inner loop of `remove_duplicates` stops when the text no longer starts with the substring |
| `SymbolSeq.RemoveDuplicatesStep` | src/cxx/chaoscore/base/str/UTF8String.cpp:467-487 | one round of the outer loop: keep up to and including the first match, drop the copies after it |
| `SymbolSeq.RemoveDuplicatesAt` | src/cxx/chaoscore/base/str/UTF8String.cpp:470-478 | at a match, the kept head is the text up to and including it, and removal from the match on is the substring followed by removal from what the copy-dropping leaves |
| `SymbolSeq.RemoveDuplicatesNoMatch` | src/cxx/chaoscore/base/str/UTF8String.cpp:453-493 | a text without the substring is left as it is |
| `SymbolSeq.RemoveDuplicatesCollapse` | src/cxx/chaoscore/base/str/UTF8String.cpp:453-493 | any number of back-to-back copies become one |
| `SymbolSeq.RemoveDuplicatesSqueeze` | src/cxx/chaoscore/base/str/UTF8String.cpp:453-493 | for a one-symbol substring, duplicate removal shortens each run of it to one |
| `SymbolSeq.SqueezeNoAdjacent` | src/cxx/chaoscore/base/str/UTF8String.cpp:453-493 | afterwards no two neighbours are both the symbol |
| `SymbolSeq.SqueezeWithout` | src/cxx/chaoscore/base/str/UTF8String.cpp:453-493 | the other symbols are kept, in order |
| `SymbolSeq.SqueezeIdentity` | src/cxx/chaoscore/base/str/UTF8String.cpp:453-493 | a text with no two neighbouring copies is left as it is, so the removal is idempotent |
| `SymbolSeq.LexLessIrreflexive` | src/cxx/chaoscore/base/str/UTF8String.cpp:93-116 | no sequence of code points is less than itself |
| `SymbolSeq.LexLessAsymmetric` | src/cxx/chaoscore/base/str/UTF8String.cpp:93-116 | two sequences are never each less than the other |
| `SymbolSeq.LexLessTransitive` | src/cxx/chaoscore/base/str/UTF8String.cpp:93-116 | the code-point order is transitive |
| `SymbolSeq.LexLessTotal` | src/cxx/chaoscore/base/str/UTF8String.cpp:93-116 | distinct sequences of code points are ordered one way or the other |
| `Strings.Utf8String.CheckSymbolIndex` | src/cxx/chaoscore/base/str/UTF8String.cpp:891-900 | IndexOutOfBoundsError exactly when the index is not below the symbol count |
| `Strings.Utf8String.CheckByteIndex` | src/cxx/chaoscore/base/str/UTF8String.cpp:902-912 | IndexOutOfBoundsError exactly when the index is outside the buffer |
| `Strings.Utf8String.GetByteWidth` | src/cxx/chaoscore/base/str/UTF8String.cpp:808-833 | the width the byte announces, IndexOutOfBoundsError outside the buffer |
| `Strings.Utf8String.AssignInternal` | src/cxx/chaoscore/base/str/UTF8String.cpp:839-889 | a fresh buffer holding the bytes up to `strlen`, or the given bytes less a terminating zero, and the count of their symbols |
| `Strings.CopyToBuffer` | src/cxx/chaoscore/base/str/UTF8String.cpp:870-878 | the buffer `assign_internal` allocates: the source bytes with exactly one terminating zero |
| `Strings.AssignedContent` | src/cxx/chaoscore/base/str/UTF8String.cpp:851-873 | what `assign_internal` keeps before the terminator: for `npos` the zero-free bytes before the first zero; otherwise the first `n` bytes, less the last only when it is a zero; a prefix of the source either way |
| `Strings.Utf8String.Recount` | src/cxx/chaoscore/base/str/UTF8String.cpp:880-888 | the counting loop sets `length` to the symbol count of the content |
| `Strings.Utf8String.constructor` | src/cxx/chaoscore/base/str/UTF8String.cpp:20-28 | the empty string |
| `Strings.Utf8String.FromCString` | src/cxx/chaoscore/base/str/UTF8String.cpp:30-38 | the bytes before the first zero |
| `Strings.Utf8String.FromBytes` | src/cxx/chaoscore/base/str/UTF8String.cpp:40-48 | the first `n` bytes, less a final zero |
| `Strings.Utf8String.Copy` | src/cxx/chaoscore/base/str/UTF8String.cpp:50-58 | the same content |
| `Strings.Utf8String.Assign` | src/cxx/chaoscore/base/str/UTF8String.cpp:74-78 | the other's content in a fresh buffer |
| `Strings.Utf8String.Concatenate` | src/cxx/chaoscore/base/str/UTF8String.cpp:272-290 | this content followed by the other's; one terminator is dropped from the buffer size; counts add for aligned text |
| `Strings.ConcatBuffer` | src/cxx/chaoscore/base/str/UTF8String.cpp:276-286 | the new buffer: the first buffer less its terminator, then all of the second |
| `Strings.Utf8String.Repeat` | src/cxx/chaoscore/base/str/UTF8String.cpp:292-313 | `count` copies of the content; the count is multiplied for aligned text |
| `Strings.RepeatBuffer` | src/cxx/chaoscore/base/str/UTF8String.cpp:294-309 | the new buffer: `count` copies of the content, then a terminator |
| `Strings.CopyBlock` | src/cxx/chaoscore/base/str/UTF8String.cpp:302-306 | one round of the copying loop of `repeat`: the block written after what is already there, the bytes before and after the block unchanged |
| `Strings.Utf8String.GetByteIndexForSymbolIndex` | src/cxx/chaoscore/base/str/UTF8String.cpp:740-762 | the byte offset of symbol `k`, inside the content; IndexOutOfBoundsError past the count |
| `Strings.Utf8String.GetSymbolIndexForByteIndex` | src/cxx/chaoscore/base/str/UTF8String.cpp:783-806 | IndexOutOfBoundsError outside the buffer; otherwise the symbol whose run holds byte `b`; `npos` exactly for the terminator of aligned content, while after a truncated last run the terminator belongs to that last symbol |
| `Strings.Utf8String.GetSymbolWidth` | src/cxx/chaoscore/base/str/UTF8String.cpp:764-771 | IndexOutOfBoundsError past the count; otherwise the width announced by the lead byte at symbol `k`'s offset, which for aligned content is the length of symbol `k` |
| `Strings.Utf8String.GetSymbol` | src/cxx/chaoscore/base/str/UTF8String.cpp:682-693 | IndexOutOfBoundsError past the count; otherwise the string built from symbol `k`'s run, which ends at a final zero byte of that run; for zero-free content it is the run itself |
| `Strings.Utf8String.SymbolIs` | src/cxx/chaoscore/base/str/UTF8String.cpp:504 | comparing symbol `k` with a one-byte ASCII literal such as "-", "." or "0" is true exactly when the symbol is that byte alone |
| `Strings.Utf8String.SymbolBytes` | src/cxx/chaoscore/base/str/UTF8String.cpp:682-693 | the bytes from symbol `k`'s byte offset for the width its lead byte announces are exactly symbol `k` |
| `Strings.Utf8String.GetSymbolValue` | src/cxx/chaoscore/base/str/UTF8String.cpp:695-705 | the bytes of symbol `k` read little-endian |
| `Strings.Utf8String.GetCodePoint` | src/cxx/chaoscore/base/str/UTF8String.cpp:707-738 | the code point of symbol `k` |
| `Strings.Utf8String.GetLength` | src/cxx/chaoscore/base/str/UTF8String.cpp:671-674 | the number of symbols |
| `Strings.Utf8String.IsEmpty` | src/cxx/chaoscore/base/str/UTF8String.cpp:676-680 | true exactly when the content is empty, which is when the count is 0 |
| `Strings.Utf8String.Equals` | src/cxx/chaoscore/base/str/UTF8String.cpp:80-86 | for zero-free contents, true exactly when the contents are equal |
| `Strings.Utf8String.NotEquals` | src/cxx/chaoscore/base/str/UTF8String.cpp:88-91 | for zero-free contents, true exactly when the contents differ |
| `Strings.Utf8String.CompareCodePoints` | src/cxx/chaoscore/base/str/UTF8String.cpp:93-116 | the comparison loop computes the lexicographic order of the code points |
| `Strings.Utf8String.CodePointPair` | src/cxx/chaoscore/base/str/UTF8String.cpp:103-104 | the two code points compared at symbol `k` are the `k`-th of each string's code points |
| `Strings.Utf8String.Less` | src/cxx/chaoscore/base/str/UTF8String.cpp:93-116 | `operator<` is the code-point order of the contents |
| `Strings.TextLessAsymmetric` | src/cxx/chaoscore/base/str/UTF8String.cpp:93-116 | two strings are never each less than the other |
| `Strings.TextLessTransitive` | src/cxx/chaoscore/base/str/UTF8String.cpp:93-116 | the string order is transitive |
| `Strings.Utf8String.StartsWith` | src/cxx/chaoscore/base/str/UTF8String.cpp:315-333 | true exactly when the symbols of `sub` begin this string, each pair compared by `strcmp`; for well-formed contents, exactly when the symbols themselves begin it |
| `Strings.Utf8String.EndsWith` | src/cxx/chaoscore/base/str/UTF8String.cpp:335-354 | true exactly when the symbols of `sub` end this string, each pair compared by `strcmp`; for well-formed contents, exactly when the symbols themselves end it |
| `Strings.Utf8String.MatchBackwardsAt` | src/cxx/chaoscore/base/str/UTF8String.cpp:343-350 | the backwards loop of `ends_with` tests a `strcmp`-wise match at `diff` |
| `Strings.Utf8String.MatchValuesAt` | src/cxx/chaoscore/base/str/UTF8String.cpp:367-376 | the inner loop of `find_first`, over symbol values, tests a match at `i` |
| `Strings.Utf8String.MatchSymbolsAt` | src/cxx/chaoscore/base/str/UTF8String.cpp:323-330 | the loop of `starts_with` and the inner loop of `find_last` test a `strcmp`-wise match at `i` |
| `Strings.Utf8String.SameSymbol` | src/cxx/chaoscore/base/str/UTF8String.cpp:401 | `get_symbol(j) != get_symbol(k)` negated: equality of the two symbols as `strcmp` reads them |
| `Strings.Utf8String.SameSymbolValue` | src/cxx/chaoscore/base/str/UTF8String.cpp:367-376 | equal symbol values at `k` and `j` exactly when the two complete runs are equal |
| `Strings.Utf8String.FindFirst` | src/cxx/chaoscore/base/str/UTF8String.cpp:356-383 | the leftmost occurrence of `sub`, `npos` when there is none |
| `Strings.Utf8String.FindLast` | src/cxx/chaoscore/base/str/UTF8String.cpp:385-413 | the rightmost `strcmp`-wise occurrence of `sub`, `npos` when there is none; for well-formed contents, the rightmost occurrence of its symbols |
| `Strings.Utf8String.ScanDown` | src/cxx/chaoscore/base/str/UTF8String.cpp:392-412 | the downward scan of `find_last` returns the rightmost `strcmp`-wise match |
| `Strings.Utf8String.CollectSymbols` | src/cxx/chaoscore/base/str/UTF8String.cpp:570-580 | a fresh string holding exactly the symbols `[start, stop)` |
| `Strings.Utf8String.CollectBytes` | src/cxx/chaoscore/base/str/UTF8String.cpp:572-578 | the loop of `substring` appends well-formed bytes whose symbols are exactly `[start, stop)` |
| `Strings.Utf8String.Substring` | src/cxx/chaoscore/base/str/UTF8String.cpp:559-581 | the symbols from `start`, at most `count` of them; empty at the end; IndexOutOfBoundsError past it |
| `Strings.Utf8String.DelimiterAt` | src/cxx/chaoscore/base/str/UTF8String.cpp:431 | the `substring(i, n) == delimiter` test is a match of the delimiter at `i` |
| `Strings.Utf8String.SplitPieces` | src/cxx/chaoscore/base/str/UTF8String.cpp:425-447 | the loop of `split` yields exactly the reference split |
| `Strings.Utf8String.SplitRound` | src/cxx/chaoscore/base/str/UTF8String.cpp:431-444 | one round of the `split` loop moves `i` forward and keeps the loop state: the pieces pushed and the one being gathered, with the rest of the walk, make up the reference split |
| `Strings.SplittingPush` | src/cxx/chaoscore/base/str/UTF8String.cpp:431-438 | at a delimiter the gathered piece is pushed, the element cleared and `i` moved past the delimiter, the split state kept |
| `Strings.SplittingGrow` | src/cxx/chaoscore/base/str/UTF8String.cpp:440-443 | away from a delimiter the element grows by symbol `i`, the split state kept |
| `Strings.Utf8String.AppendSymbolTo` | src/cxx/chaoscore/base/str/UTF8String.cpp:442 | `element += get_symbol(i)` on well-formed text: the element stays well-formed and its symbols grow by symbol `i` |
| `Strings.Utf8String.Split` | src/cxx/chaoscore/base/str/UTF8String.cpp:415-451 | ValueError for an empty delimiter; otherwise the texts of the reference split |
| `Strings.Utf8String.DropLeadingCopies` | src/cxx/chaoscore/base/str/UTF8String.cpp:480-486 | the inner loop of `remove_duplicates` drops every leading copy of the substring |
| `Strings.Utf8String.CutAfterMatch` | src/cxx/chaoscore/base/str/UTF8String.cpp:470-486 | one outer round: the output grows by the text up to the match, and duplicate removal of the rest completes the whole |
| `Strings.Utf8String.Collapsed` | src/cxx/chaoscore/base/str/UTF8String.cpp:463-490 | the outer loop produces the reference duplicate removal |
| `Strings.Utf8String.RemoveDuplicates` | src/cxx/chaoscore/base/str/UTF8String.cpp:453-493 | nothing changes for an empty substring; otherwise the new symbols are the reference duplicate removal of the old |
| `Strings.Utf8String.SubstringOf` | src/cxx/chaoscore/base/str/UTF8String.cpp:470-478 | each `substring` call of `remove_duplicates` yields a fresh well-formed string of the symbols from `start`, at most `count` of them |
| `Strings.Utf8String.IsUint` | src/cxx/chaoscore/base/str/UTF8String.cpp:519-532 | true exactly when the text is non-empty and every symbol value is a digit |
| `Strings.Utf8String.IsInt` | src/cxx/chaoscore/base/str/UTF8String.cpp:495-517 | true exactly when the text is non-empty and every code point is a digit, except that the first symbol may be "-" |
| `Strings.Utf8String.IsFloat` | src/cxx/chaoscore/base/str/UTF8String.cpp:534-557 | true exactly when the text is non-empty and every symbol value is a digit, except a leading "-" and a first "." |
| `Strings.Utf8String.FloatSymbolCheck` | src/cxx/chaoscore/base/str/UTF8String.cpp:541-554 | one round of the loop: a digit, a leading "-" or the first "." passes, and only a "." sets the point flag |
| `Strings.FloatScanStep` | src/cxx/chaoscore/base/str/UTF8String.cpp:538-555 | one step of the `is_float` scan keeps its invariant or rules the text out |
| `Strings.UintIsIntAndFloat` | src/cxx/chaoscore/base/str/UTF8String.cpp:495-557 | every unsigned integer text is an integer text and a float text |
| `Strings.OverlongZero` | src/cxx/chaoscore/base/str/UTF8String.cpp:495-557 | the overlong "0" [0xC0, 0xB0] passes `is_int`, which decodes code points, but not `is_uint` or `is_float`, which read raw symbol values |
| `Strings.ZeroInsideSymbol` | src/cxx/chaoscore/base/str/UTF8String.cpp:682-693 | a symbol with a zero inside compares equal to another that differs only after the zero: [0xE0, 0x00, x] starts with [0xE0, 0x00, y] for every y |
| `Strings.MinusIsTrue` | src/cxx/chaoscore/base/str/UTF8String.cpp:495-517 | a lone "-" passes `is_int`, and `to_bool` reads "-" and "-0" as true |
| `Strings.DigitRun` | src/cxx/chaoscore/base/str/UTF8String.cpp:519-532 | a complete run whose symbol value is a digit is that single byte |
| `Strings.Utf8String.ToBool` | src/cxx/chaoscore/base/str/UTF8String.cpp:591-610 | ConversionDataError unless `is_int` holds; then true exactly when some symbol is not "0" |
| `Strings.Utf8String.ToInteger` | src/cxx/chaoscore/base/str/UTF8String.cpp:612-667 | the signed conversions succeed exactly on `is_int` texts and the unsigned ones on `is_uint` texts; otherwise ConversionDataError; the text handed on is the content |
| `Paths.Path.constructor` | src/cpp/arcanecore/io/sys/Path.cpp:32-34 | the empty path |
| `Paths.Path.FromComponents` | src/cpp/arcanecore/io/sys/Path.cpp:36-40 | the given components |
| `Paths.Path.FromRange` | src/cpp/arcanecore/io/sys/Path.cpp:42-48 | the components from `begin` up to `end` |
| `Paths.Path.Copy` | src/cpp/arcanecore/io/sys/Path.cpp:80-84 | the other's components |
| `Paths.Path.FromString` | src/cpp/arcanecore/io/sys/Path.cpp:50-78 | well-formed components: the de-duplicated text split at "/", the root made explicit, a trailing empty component dropped |
| `Paths.ParseUnix` | src/cpp/arcanecore/io/sys/Path.cpp:50-78 | the components of a Unix path text: duplicates of "/" removed, split at "/", the root made explicit and a trailing empty component dropped; all well-formed |
| `Paths.FixEnds` | src/cpp/arcanecore/io/sys/Path.cpp:59-77 | a leading empty component becomes "/" and a final empty component is dropped, nothing else changes |
| `Paths.SplitUnix` | src/cpp/arcanecore/io/sys/Path.cpp:55-57 | the copy de-duplicated at "/" then split at "/", every piece well-formed |
| `Paths.Sanitised` | src/cpp/arcanecore/io/sys/Path.cpp:55-56 | the copy of the text with its runs of "/" collapsed |
| `Paths.SplitAtSep` | src/cpp/arcanecore/io/sys/Path.cpp:57 | the split at "/", every piece well-formed |
| `Paths.StringOf` | src/cpp/arcanecore/io/sys/Path.cpp:55 | a fresh string object holding exactly the given well-formed text |
| `Paths.FixedEnds` | src/cpp/arcanecore/io/sys/Path.cpp:59-77 | the `== ""` tests are emptiness tests, and fixing the ends keeps the components well-formed |
| `Paths.Path.Assign` | src/cpp/arcanecore/io/sys/Path.cpp:90-94 | the other's components |
| `Paths.Path.Equals` | src/cpp/arcanecore/io/sys/Path.cpp:96-114 | same length and pairwise `strcmp`-equal, which for valid paths is equality of the components |
| `Paths.Path.NotEquals` | src/cpp/arcanecore/io/sys/Path.cpp:116-119 | for valid paths, true exactly when the components differ |
| `Paths.Path.Less` | src/cpp/arcanecore/io/sys/Path.cpp:121-139 | shorter is less; for equal lengths the first differing components decide by the string order |
| `Paths.ComponentLess` | src/cpp/arcanecore/io/sys/Path.cpp:131 | the string order of two components |
| `Paths.FirstDifferenceFrom` | src/cpp/arcanecore/io/sys/Path.cpp:127-134 | the first index from `i` where the components differ, all equal before it |
| `Paths.PathLessIrreflexive` | src/cpp/arcanecore/io/sys/Path.cpp:121-139 | no path is less than itself |
| `Paths.PathLessAsymmetric` | src/cpp/arcanecore/io/sys/Path.cpp:121-139 | two paths are never each less than the other |
| `Paths.PathLessTransitive` | src/cpp/arcanecore/io/sys/Path.cpp:121-139 | the path order is transitive |
| `Paths.Path.Plus` | src/cpp/arcanecore/io/sys/Path.cpp:151-157 | a fresh path with these components then the other's |
| `Paths.Path.Extend` | src/cpp/arcanecore/io/sys/Path.cpp:159-168 | the other's components pushed after these |
| `Paths.Path.Join` | src/cpp/arcanecore/io/sys/Path.cpp:170-183 | one component pushed at the end |
| `Paths.InsertAt` | src/cpp/arcanecore/io/sys/Path.cpp:197-216 | one longer, `c` at `index`, the components before it kept and those after it shifted up by one |
| `Paths.Path.Insert` | src/cpp/arcanecore/io/sys/Path.cpp:185-217 | IndexOutOfBoundsError beyond the end, nothing changed; otherwise the component inserted at `index` |
| `Paths.Path.Clear` | src/cpp/arcanecore/io/sys/Path.cpp:219-222 | no components |
| `Paths.RemoveAt` | src/cpp/arcanecore/io/sys/Path.cpp:236-251 | one shorter, the components before `index` kept and those after it shifted down by one |
| `Paths.Path.Remove` | src/cpp/arcanecore/io/sys/Path.cpp:224-252 | IndexOutOfBoundsError unless `index` names a component, nothing changed; otherwise that component removed |
| `Paths.RemoveInserted` | src/cpp/arcanecore/io/sys/Path.cpp:185-252 | removing the component just inserted gives the components back |
| `Paths.InsertRemoved` | src/cpp/arcanecore/io/sys/Path.cpp:185-252 | re-inserting the component just removed gives the components back |
| `Paths.Path.ToUnix` | src/cpp/arcanecore/io/sys/Path.cpp:267-290 | for valid paths, the components joined with "/", a leading "/" component rendered once in front |
| `Paths.RenderParsed` | src/cpp/arcanecore/io/sys/Path.cpp:50-78 | rendering a parsed text gives the text with runs of "/" collapsed and a trailing "/" dropped; the empty text renders as "/" |
| `Paths.RenderSplit` | src/cpp/arcanecore/io/sys/Path.cpp:267-290 | rendering the pieces of a split, with the root made explicit and a trailing empty piece dropped, gives the joined text normalised |
| `Paths.EmptyTextIsRoot` | src/cpp/arcanecore/io/sys/Path.cpp:50-78 | the empty text parses to the root component "/" alone |
| `Paths.RootedExample` | src/cpp/arcanecore/io/sys/Path.cpp:50-78 | "/a//b/" parses to "/", "a", "b" |
| `Paths.Path.GetLength` | src/cpp/arcanecore/io/sys/Path.cpp:299-302 | the number of components |
| `Paths.Path.IsEmpty` | src/cpp/arcanecore/io/sys/Path.cpp:304-307 | true exactly when there are no components |
| `Paths.Path.GetFront` | src/cpp/arcanecore/io/sys/Path.cpp:314-325 | IndexOutOfBoundsError exactly for the empty path; otherwise the first component |
| `Paths.Path.GetBack` | src/cpp/arcanecore/io/sys/Path.cpp:327-338 | IndexOutOfBoundsError exactly for the empty path; otherwise the last component |
| `Paths.Path.GetExtension` | src/cpp/arcanecore/io/sys/Path.cpp:340-358 | the text after the last "." of the last component; empty without a "." or a component |
| `Paths.LastDot` | src/cpp/arcanecore/io/sys/Path.cpp:346 | `find_last(".")` on the component |
| `Paths.SymbolsFrom` | src/cpp/arcanecore/io/sys/Path.cpp:350-353 | the substring from symbol `start` to the end |
| `Paths.ComponentExtension` | src/cpp/arcanecore/io/sys/Path.cpp:346-353 | `get_extension` on the last component: the reference extension of that component |
| `Paths.ExtensionAfterLastDot` | src/cpp/arcanecore/io/sys/Path.cpp:340-358 | the extension is well-formed and holds no "."; it is what follows the last "."; without a "." it is empty |
| `VectorMath.Minimum` | src/cpp/arcanecore/gm/VectorMath.hpp:68-78 | each component is at most both inputs and equal to one of them |
| `VectorMath.Maximum` | src/cpp/arcanecore/gm/VectorMath.hpp:90-100 | each component is at least both inputs and equal to one of them |
| `VectorMath.MinMaxSum` | src/cpp/arcanecore/gm/VectorMath.hpp:68-100 | minimum and maximum split each pair of components between them |
| `VectorMath.Clamp` | src/cpp/arcanecore/gm/VectorMath.hpp:113-128 | with lower ≤ upper, each component lands in [lower, upper]; components inside are kept, the others go to the nearer threshold |
| `VectorMath.ClampEach` | src/cpp/arcanecore/gm/VectorMath.hpp:149-164 | the same, with thresholds per component |
| `VectorMath.ClampIdempotent` | src/cpp/arcanecore/gm/VectorMath.hpp:113-128 | clamping a second time changes nothing |
| `VectorMath.Dot` | src/cpp/arcanecore/gm/VectorMath.hpp:233-243 | the accumulation loop computes the sum of the products of the components |
| `VectorMath.DotSymmetric` | src/cpp/arcanecore/gm/VectorMath.hpp:233-243 | the dot product does not depend on the order of its arguments |
| `VectorMath.DotAdditive` | src/cpp/arcanecore/gm/VectorMath.hpp:233-243 | the dot product is additive in its first argument |
| `VectorMath.DotVector` | src/cpp/arcanecore/gm/VectorMath.hpp:255-265 | every component is the dot product |
| `VectorMath.Cross` | src/cpp/arcanecore/gm/VectorMath.hpp:276-291 | defined for dimension 3; the result is orthogonal to both arguments |
| `VectorMath.CrossAnticommutative` | src/cpp/arcanecore/gm/VectorMath.hpp:276-291 | swapping the arguments negates the result; a vector crossed with itself gives zero |
| `VectorMath.Magnitude2` | src/cpp/arcanecore/gm/VectorMath.hpp:301-304 | the dot product of the vector with itself; never negative, zero only for the zero vector |
| `MatrixMath.Transposed` | src/cpp/arcanecore/gm/MatrixMath.hpp:21-37 | the shape is swapped and entry (i, j) of the result is entry (j, i) of the input |
| `MatrixMath.Transpose` | src/cpp/arcanecore/gm/MatrixMath.hpp:34-48 | the nested loops build exactly the transpose |
| `MatrixMath.TransposeInvolution` | src/cpp/arcanecore/gm/MatrixMath.hpp:34-48 | transposing twice gives the matrix back |
| `MatrixMath.Transpose3` | src/cpp/arcanecore/gm/MatrixMath.hpp:52-61 | a 3x3 matrix with entry (i, j) equal to entry (j, i) of the input |
| `MatrixMath.Transpose3Generic` | src/cpp/arcanecore/gm/MatrixMath.hpp:52-61 | the 3x3 overload agrees with the generic transpose |
| `MatrixMath.Transpose4` | src/cpp/arcanecore/gm/MatrixMath.hpp:75-85 | a 4x4 matrix with entry (i, j) equal to entry (j, i) of the input |
| `MatrixMath.Transpose4Generic` | src/cpp/arcanecore/gm/MatrixMath.hpp:75-85 | the 4x4 overload agrees with the generic transpose |
| `MatrixMath.Transpose3x4Built` | src/cpp/arcanecore/gm/MatrixMath.hpp:63-73 | the value the 3x4 overload builds: four columns of three, entry (i, j) equal to entry (j, i) of the input |
| `MatrixMath.Transpose3x4DeclaredMismatch` | src/cpp/arcanecore/gm/MatrixMath.hpp:63-73 | that value never has the three-column, four-row shape the declared result type promises |
| `MatrixMath.Transpose3x4` | src/cpp/arcanecore/gm/MatrixMath.hpp:63-73 | with the result type corrected to four columns of three rows, the overload is the generic transpose |

## Left out

- The stream `operator<<` overloads for numbers, characters and `bool`, and the `ostream` printers of strings and paths: these are formatting through `std::stringstream` and I/O. The string and C-string `<<` overloads are modelled as `Concatenate`.
- `to_std_string`, `get_raw` and `get_byte_length` are read-only access to the buffer, and `Content()` and `data` stand for them.
- `Strings.Utf8String.ToInteger`: does not model the numeric value that `strtol`/`strtoul` compute with base 0. That value depends on the platform's `long`, reads leading zeros as octal and narrows by casting. The model states the gate and the error, and hands the content on.
- `Strings.Utf8String.GetSymbolValue`: the helper `bytes_to_uint32` is not part of this model. It is taken to read the symbol's bytes little-endian, first byte lowest, which is what the masks of `get_code_point` rely on.
- The helper `is_digit` is not part of this model and is taken to mean the code points '0' to '9'.
- Raw memory is not modelled. `assign_internal` frees the old buffer before copying, so self-assignment reads freed memory, and `concatenate` and `repeat` leak their temporary buffers. The model has value semantics: every assignment copies into a fresh array.
- The symbol accessors (`get_symbol`, `get_symbol_value`, `get_code_point`) and everything built on them (`operator<`, `starts_with`, `ends_with`, `find_first`, `find_last`, `is_int`, `is_uint`, `is_float`, `to_bool`, the integer conversions) require aligned content, meaning a last run that is not truncated. A last run truncated by two or more bytes makes the source read past the buffer. One truncated by exactly one byte reads the terminator as its final byte, which `get_symbol` then drops, so the source is defined there: that case is not modelled. The comparisons compare as `strcmp` does, so a zero inside a symbol ends the comparison. `substring`, `split`, `remove_duplicates` and the path operations require well-formed content: complete runs with no zero byte. Byte-level operations (constructors, assignment, concatenation and `+=`, repetition, the index conversions) carry no such requirement.
- `size_t` arithmetic is unbounded here. The wrap-around of `m_length - (substring.m_length - 1)` in `find_first` for an empty substring gives the same result as the unbounded model.
- Local strings are held by value. This covers the pieces and output of `split` and `remove_duplicates`, and the copy in the path constructor.
- The Windows branch of the path constructor, `to_native` and `to_windows`: these are conditional on the operating system. The Unix branch is modelled.
- `Path::operator[]` and `get_components` give unchecked direct access to the component vector; the model reads `components`.
- `Paths.Path.Extend`: `p += p` appends while iterating over the same vector, which can invalidate the iterator in the source. The model appends a copy of the other's components taken before the loop.
- `Paths.Path.ToUnix` and `Paths.RenderParsed`: the helper `arc::str::join` is not part of this model and is taken to be intercalation with the separator.
- VectorMath and MatrixMath use unbounded integers as the scalar. Fixed-width overflow, floating point and the SIMD variants are not modelled.
- The floating-point vector functions (`floor`, `ceil`, `round`, `normalise`, `magnitude`, `distance`, `direction`, `angle2`, `log`, `log2`, `exp`, `pow`, `pow_fast`, `sqrt`, `rsqrt`, `sin`, `cos`, `sincos`) and `abs` and `cast` are not modelled.
- `VectorMath.Clamp`: the scalar helper `arc::math::clamp` is not part of this model and is taken to return the nearer threshold for a value outside `[lower, upper]`. For lower > upper the source promises nothing, and the model states only which threshold wins.

## Findings

| source | as written | input that shows it | evidently intended | confidence | as-written member | corrected member |
|---|---|---|---|---|---|---|
| src/cpp/arcanecore/gm/MatrixMath.hpp:63-73 | the 3x4 `transpose` is declared to return `Matrix<T,3,4>` (three columns of four) but builds a `Matrix<T,4,3>` (four columns of three) | any 3x4 matrix: the value built has four columns, not the three the declared type has | the result type `Matrix<T,4,3>`, as the generic `transpose` of a `Matrix<T,3,4>` returns | high (not executed) | `MatrixMath.Transpose3x4DeclaredMismatch` | `MatrixMath.Transpose3x4` |
