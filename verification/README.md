# XCB display names, endpoints and popcount, in Dafny

A model of the decision-making core of `src/xcb_util.c` from an early XCB
(the C binding of the X Window System protocol), with proofs about it:

- `XCBPopcount`: the HAKMEM 169 bit count of a 32-bit mask. It is proved
  equal to a plain count of set bits for every mask (`popcount.dfy`).
- `XCBParseDisplay`: splits a display name `[host]:display[.screen]` into a
  host, a display number and a screen number. A NULL or empty name falls
  back to the DISPLAY variable (`display.dfy`). It rests on a model of the C
  library routines it calls: `strrchr`, `strtoul`, and the
  `printf("%d")`/`snprintf` text used later (`c_string.dfy`). It also rests
  on the C integer types and their implicit conversions (`c_types.dfy`).
- The endpoint choice in `_xcb_open`: TCP port `6000 + display` for a
  non-empty host, and the socket `/tmp/.X11-unix/X<display>` for an empty
  one (`transport.dfy`). `Transport.Resolve` composes it with the parser
  the way `XCBConnect` does.

The C operators are modelled on unbounded integers with the wrap-around
written out:
- `unsigned long` arithmetic is modulo 2^64, assuming an LP64 target.
- Storing an `unsigned long` in an `int` reduces it modulo 2^32 as two's
  complement.
- Storing into an `unsigned short` reduces modulo 2^16.
- `&` is a recursive bitwise AND on naturals, and `>> k` is division by 2^k.

Strings are Dafny strings and stand for the characters before the NUL, so
the names a C caller can pass are the strings without '\0'. The operations
and lemmas are stated for every string; those without '\0' are the ones
that matter. `Option` and `Result` (`wrappers.dfy`) stand for NULL
pointers and for failures. The
DISPLAY variable is a parameter (`env`), and so is the success of `malloc`
(`allocates`).

The usual reading of a display name is `[host]:display[.screen]` with
unsigned decimal numbers. The code is more lenient, and the model follows
the code:
- `strtoul` skips white space and accepts a sign, so ": +2" is display 2 and
  ":-1" is display -1 (`Display.SpacedDisplayExample`,
  `Display.NegativeDisplayExample`).
- A display number that does not fit is not refused. It saturates at
  ULONG_MAX and is then narrowed to `int` (`Display.LargeDisplay`,
  `Display.SaturatedDisplay`).
- `_xcb_open` has no length check on the Unix socket path, and needs none:
  the path it formats is at most 27 characters, while the buffer holds 36
  and `sun_path` 107 (`Transport.UnixPathFits`). So on the way from
  `_xcb_open` the model has no "path too long" failure. (`XCBOpenUnix`
  reaches the same unchecked copy with a caller's path; see "Left out".)
- A host may itself contain ':', because the name is split at its last
  ':'. "::1:0.0" is host "::1" (`Display.ColonHostExample`).
- The code reports every failure as the return value 0. The model names the
  cases (`Display.ParseFailure`): no name, no display number (this also
  covers a missing ':'), an invalid screen, and out of memory.

## Model

| member | source | states |
|---|---|---|
| `BitCount.Popcount` | src/xcb_util.c:44-50 | for every 32-bit mask the HAKMEM count equals the number of set bits (`Ones`), so it lies in 0..32 |
| `BitCount.BitAnd` | src/xcb_util.c:47-49 | the C `&` on non-negative integers: the result is at most either operand |
| `BitCount.AndBits` | src/xcb_util.c:47-49 | binary digit k of `a & b` is set exactly when digit k is set in both `a` and `b` |
| `BitCount.Sub` | src/xcb_util.c:48 | `unsigned long` subtraction is congruent to the difference modulo 2^64, and is exact when it does not go below zero |
| `BitCount.Add` | src/xcb_util.c:49 | `unsigned long` addition is congruent to the sum modulo 2^64, and is exact when the sum fits |
| `BitCount.DigitCounts` | src/xcb_util.c:47-48 | the two masked subtractions replace each octal digit of the mask by its number of set bits, without `unsigned long` wrap-around |
| `BitCount.HalvedIsMasked` | src/xcb_util.c:47 | `(x >> 1) & 033333333333` halves every octal digit of `x` |
| `BitCount.CountedIsDifference` | src/xcb_util.c:48 | `x` minus its halved digits minus its twice-halved digits is the per-digit bit count, and the subtractions never go below zero |
| `BitCount.DigitSumsModulo63` | src/xcb_util.c:49 | adding neighbours, masking with `030707070707` and reducing modulo `077` turns the per-digit counts into the total bit count |
| `BitCount.PairsOfDigits` | src/xcb_util.c:49 | on eleven octal digits of at most 3, `(y + (y >> 3)) & 030707070707` is the sum of neighbouring digit pairs in base 64 |
| `BitCount.PairSumIsMasked` | src/xcb_util.c:49 | adding `y >> 3` produces no carries while digits are small, and the mask keeps the pair sums, for any number of pairs |
| `BitCount.PairSumCongruent` | src/xcb_util.c:49 | base-64 pair sums and octal digit sums differ by a multiple of 63, which is why `% 077` recovers the digit sum |
| `BitCount.DigitSumOfCounted` | src/xcb_util.c:48-49 | the digit sum of the per-digit counts is the bit count of the mask |
| `CTypes.ULongToInt` | src/xcb_util.c:65 | the `unsigned long` from `strtoul` stored in an `int` is congruent to it modulo 2^32, and unchanged when it fits |
| `CTypes.ToUShort` | src/xcb_util.c:103 | the port stored in an `unsigned short` is congruent to `6000 + display` modulo 2^16, and unchanged when in range |
| `CString.LastIndex` | src/xcb_util.c:60-62 | `strrchr` finds nothing exactly when the character is absent; otherwise it finds an occurrence with none after it |
| `CString.LastIndexAt` | src/xcb_util.c:60 | an occurrence with no later occurrence is the one `strrchr` returns |
| `CString.StrToUL` | src/xcb_util.c:65 | `strtoul` consumes nothing, or it stops right after a digit and before any further digit |
| `CString.SignedToUL` | src/xcb_util.c:65 | after the white space, `strtoul` consumes nothing or stops right after a digit and before any further digit |
| `CString.DigitsToUL` | src/xcb_util.c:65 | the digits converted are the longest run of digits at the start; without one nothing is consumed and the value is 0 |
| `CString.Signed` | src/xcb_util.c:65 | a magnitude above ULONG_MAX saturates to ULONG_MAX; otherwise it is kept, or negated modulo 2^64 after a minus sign |
| `CString.NumeralValue` | src/xcb_util.c:65 | `strtoul` of white space, an optional sign and digits consumes all of it and yields the digits' value, saturated and negated after '-' |
| `CString.DigitsConversion` | src/xcb_util.c:65 | a run of digits is consumed entirely and converts to its value, saturated and negated if asked |
| `CString.NumeralStarts` | src/xcb_util.c:65-67 | `strtoul` consumes something exactly when white space, an optional sign and a digit start the text |
| `CString.NumeralConsumed` | src/xcb_util.c:75-76 | `strtoul` consumes the entire text exactly when the text is a numeral (white space, optional sign, digits) |
| `CString.ConsumedIsNumeral` | src/xcb_util.c:65 | what `strtoul` consumed is always a numeral |
| `CString.NumeralThenOther` | src/xcb_util.c:65-72 | a numeral followed by a non-digit converts as the numeral alone, so `dot` lands on the character after it |
| `CString.FormatNat` | src/xcb_util.c:111 | the decimal text of a natural is a non-empty digit run without leading zeros whose value is the number |
| `CString.FormatInt` | src/xcb_util.c:111 | `%d` text is the digits of the value without leading zeros, preceded by '-' exactly for negative values |
| `CString.FormatIntConversion` | src/xcb_util.c:65 | `strtoul` reads `%d` text back in full, and narrowing to `int` gives back the original number |
| `CString.FormatIntLength` | src/xcb_util.c:110-111 | `%d` of an `int` takes at most 11 characters |
| `CString.Bounded` | src/xcb_util.c:111 | `snprintf` keeps the whole text when it fits the buffer, and otherwise exactly its first `size - 1` characters |
| `Display.DisplayName` | src/xcb_util.c:56-57 | a non-empty name is used as given; a NULL or empty one is replaced by DISPLAY |
| `Display.ParseText` | src/xcb_util.c:60-78 | an accepted host is the text before the last ':'; a name without ':' lacks a display number; only these two failures occur |
| `Display.ParseNumbers` | src/xcb_util.c:63-78 | the display number is missing exactly when no numeral starts the text after the colon; the host is passed through |
| `Display.ParseDisplay` | src/xcb_util.c:56-78 | the result is `NoDisplay` exactly when neither the name nor DISPLAY gives a text; it is never out of memory |
| `Display.ParseDisplayCall` | src/xcb_util.c:52-91 | returns 1 exactly when parsing and allocation succeed; a parse failure leaves the caller's variables untouched; an allocation failure only nulls `*host`; success writes host, display and (when `screenp` is given) screen |
| `Display.NameOverridesEnvironment` | src/xcb_util.c:56 | a non-empty name is parsed whatever DISPLAY holds |
| `Display.EnvironmentFallback` | src/xcb_util.c:56-59 | a NULL or empty name parses DISPLAY, and fails when DISPLAY is unset |
| `Display.ParseSplit` | src/xcb_util.c:60-64 | the text after a last ':' is what is parsed for numbers, and the text before it is the host |
| `Display.ParseFormatted` | src/xcb_util.c:60-78 | `host:d.s` written with `%d` parses back to the same host, display and screen, for every host (one containing ':' too) and all `int` values |
| `Display.ParseFormattedDisplay` | src/xcb_util.c:60-69 | `host:d` parses back to host and display with screen 0, for every host |
| `Display.NumbersWithScreen` | src/xcb_util.c:68-78 | two numerals joined by '.' are parsed as display and screen |
| `Display.DigitsRoundTrip` | src/xcb_util.c:60-78 | `host:D.S` with any digit runs D and S parses to that host and the decimal values of D and S, saturated and narrowed to `int`, for every host |
| `Display.LeadingZerosExample` | src/xcb_util.c:65-77 | "h:007.01" is host "h", display 7, screen 1 |
| `Display.NumbersWithoutScreen` | src/xcb_util.c:68-69 | a numeral alone is the display number, and the screen is 0 |
| `Display.NumbersAccepted` | src/xcb_util.c:65-78 | the text after the colon is accepted exactly when it is a numeral, or two numerals joined by '.' |
| `Display.ParseAccepts` | src/xcb_util.c:60-78 | a name is accepted exactly when it has the form `[host]:numeral[.numeral]`, split at its last ':' |
| `Display.MissingNumber` | src/xcb_util.c:65-67 | no numeral after the last ':' means no display number |
| `Display.InvalidScreenAfter` | src/xcb_util.c:72-77 | after the display number, anything but '.' and a numeral is an invalid screen |
| `Display.LargeDisplay` | src/xcb_util.c:65 | any decimal display number is accepted, saturated at ULONG_MAX and narrowed to `int` |
| `Display.SaturatedDisplay` | src/xcb_util.c:65 | a display number beyond ULONG_MAX ends up as -1 |
| `Display.LocalExample` | src/xcb_util.c:60-69 | ":0" is display 0, screen 0, empty host |
| `Display.RemoteExample` | src/xcb_util.c:60-78 | "host:10.2" is host "host", display 10, screen 2 |
| `Display.FallbackExample` | src/xcb_util.c:56-59 | an empty name with DISPLAY ":1" is display 1; with DISPLAY unset it fails |
| `Display.MissingNumberExamples` | src/xcb_util.c:60-67 | ":" and "novalidcolon" lack a display number |
| `Display.InvalidScreenExamples` | src/xcb_util.c:72-77 | "h:0.", "h:0.x", "h:0.1x" and "h:0x" have an invalid screen |
| `Display.NegativeDisplayExample` | src/xcb_util.c:65 | ":-1" is accepted as display -1 |
| `Display.SpacedDisplayExample` | src/xcb_util.c:65 | ": +2" is accepted as display 2 |
| `Display.SignedDisplay` | src/xcb_util.c:60-69 | white space, an optional sign and digits after the last ':' give the digits' value, saturated, negated after '-' and narrowed to `int`, as the display, with screen 0 |
| `Display.ColonHostExample` | src/xcb_util.c:60-78 | "::1:0.0" is host "::1", display 0, screen 0: only the last ':' separates |
| `Transport.TcpPort` | src/xcb_util.c:103 | the port is `6000 + display` modulo 2^16, and exactly that sum when it is in range |
| `Transport.UnixPath` | src/xcb_util.c:109-111 | the socket path starts with "/tmp/.X11-unix/X" and is shorter than the 37-byte buffer |
| `Transport.OpenEndpoint` | src/xcb_util.c:96-116 | TCP is chosen exactly when the host is non-empty, and the host is passed on unchanged |
| `Transport.UnixPathFits` | src/xcb_util.c:109-111 | the path is never truncated, is at most 27 characters, and fits `sun_path` with its NUL, so on the way from `_xcb_open` the `strcpy` at line 141 stays in bounds |
| `Transport.UnixPathNamesDisplay` | src/xcb_util.c:109-111 | the text after the prefix of the socket path reads back as the display number |
| `Transport.UnixPathsDistinct` | src/xcb_util.c:109-111 | different display numbers have different socket paths |
| `Transport.TcpPortExact` | src/xcb_util.c:103 | displays 0 to 59535 get ports 6000 to 65535 |
| `Transport.TcpPortWraps` | src/xcb_util.c:103 | displays 65536 apart share a port |
| `Transport.Resolve` | src/xcb_util.c:158-160 | a name reaches an endpoint exactly when it parses and the host copy (lines 82-84) is allocated; a parse failure is passed on, a failed allocation is `OutOfMemory`; the endpoint is the one `_xcb_open` picks for the parsed host and display, with the parsed screen |
| `Transport.ResolveParsed` | src/xcb_util.c:158-160 | a name that parses to a host, display and screen resolves to the endpoint of that host and display, with that screen |
| `Transport.RemoteNameEndpoint` | src/xcb_util.c:158-160 | "host:d.s" reaches TCP on that host with the port of display d, for every non-empty host (colons included), every `int` display and screen, whatever DISPLAY holds |
| `Transport.LocalNameEndpoint` | src/xcb_util.c:158-160 | ":d" reaches the socket "/tmp/.X11-unix/X" followed by d |
| `Transport.UnixPrefixEndpoint` | src/xcb_util.c:60-63 | "unix:0" has the host "unix", since only the last ':' is looked at, and so leads to TCP port 6000 |
| `Transport.EndpointExamples` | src/xcb_util.c:96-116 | an empty host and display 7 give "/tmp/.X11-unix/X7"; host "example" and display 3 give port 6003 |

## Left out

- Name lookup (`gethostbyname`), `socket` and `connect` in `_xcb_open_tcp` and `_xcb_open_unix` (lines 118-149) are I/O. The model stops at the address these openers are given. The descriptor left open when `connect` fails (lines 132-133 and 146-147) is therefore not modelled.
- `htons` on the port (line 126) only changes the byte order of the port. The model keeps the port as a number.
- `XCBConnect` and `XCBConnectToDisplayWithAuthInfo` (lines 151-185) hand the descriptor to the authentication and handshake layer. That layer is not part of this model. Only their first step, parse then choose an endpoint, is modelled (`Transport.Resolve`).
- `XCBOpenUnix` (lines 217-220) hands a caller's path straight to `_xcb_open_unix`, whose `strcpy` into `sun_path` (line 141) has no length check. For that path the model proves nothing: only the path `_xcb_open` formats is shown to fit.
- `XCBSync` (lines 187-192) is a protocol round trip. The compatibility wrappers (lines 197-215) only forward their arguments, and `XCBConnectBasic` calls `perror` and `abort`. None of these is modelled.
- `getenv("DISPLAY")` is the parameter `env`. `malloc` is reduced to whether it succeeds (the parameter `allocates`). `free` of the host is not modelled.
- `X_TCP_PORT` is defined in a protocol header that is not part of this model. Its standard value 6000 is used.
- `Transport.TcpPort`: `X_TCP_PORT + display` is `int` arithmetic in C and overflows for displays above 2147477647, which is undefined behaviour. The model takes the exact sum modulo 2^16. That is also what a two's-complement wrap would give.
- `Display.ParseText`: the `int` length `colon - name` (line 63) is taken as exact. Names of 2^31 characters or more are not considered.
- The C types assume LP64: 32-bit `int`, 64-bit `unsigned long`. The `unsigned long` to `int` conversion follows GCC's documented modulo-2^32 behaviour, which C leaves implementation-defined.
- `strtoul`'s `errno` (ERANGE on saturation) and locale dependence are not modelled: the code ignores `errno`, and the "C" locale's white-space set is used.
