# PC/SC library-name resolution on Unix, in Dafny

On Unix, the smart-card I/O provider of the JDK (`sun.security.smartcardio`)
loads the PC/SC middleware (pcsc-lite, from the MUSCLE project) as a native
library. `PlatformPCSC` picks the name of that library in two steps:

- The system property `sun.security.smartcardio.library` may name an
  override. It is trimmed. Then its first `$LIBISA` macro is replaced by the
  library directory for the JVM's pointer width: `lib64` when
  `sun.arch.data.model` is `"64"`, and `lib` otherwise.
- If that gives the empty string, the fixed name `libpcsclite.so.1` is used,
  and the dynamic loader searches for it.

The class also defines the MUSCLE values of the PC/SC protocol and card-state
flags.

The model has three modules:

- `JavaString` (`java_string.dfy`) models the two `java.lang.String` operations
  the resolution uses. `IndexOf` finds the first occurrence and answers -1
  when there is none. `Trim` removes every character at or below U+0020 from
  both ends.
- `PlatformPCSC` (`platform_pcsc.dfy`) models `expand` as `Expand`,
  `getLibraryName` as `LibraryName`, and the directory choice as `LibDir`.
  The system properties are passed in as a `map<string, string>`. A key that
  is missing is an unset property: `getProperty(key, "")` then gives `""`,
  and `getProperty(key)` gives `null`, which never equals `"64"`.
- `PcscConstants` (`pcsc_constants.dfy`) holds the `SCARD_*` constants as Java
  `int`s, and lemmas about their bits.

The class declares `LIB1`, `LIB2` and `PCSC_FRAMEWORK` (PlatformPCSC.java:50-52)
but never reads them; only `LIB0` is used as the fallback (line 103). In the
model, `Lib1` and `Lib2` appear only as sample inputs to `Expand`.

When the macro is found, the result is `|lib| - 7 + |libDir|` characters long.
That is 4 characters shorter than the input for `lib` and 2 shorter for
`lib64`.

Returning `libpcsclite.so.1` does not by itself show that the property was
unset. An override that names `libpcsclite.so.1` gives the same answer, as
`OverrideCanNameFallback` shows. What holds exactly is this: the fallback
branch is taken exactly when the property is unset or blank (`FallbackIff`).

## Model

| member | source | states |
|---|---|---|
| `JavaString.IndexOfFrom` | src/java.smartcardio/unix/classes/sun/security/smartcardio/PlatformPCSC.java:78 | the search from index i returns -1 only when no occurrence starts at or after i; otherwise it returns the least such occurrence |
| `JavaString.IndexOf` | src/java.smartcardio/unix/classes/sun/security/smartcardio/PlatformPCSC.java:78-79 | `indexOf` returns -1 exactly when the token occurs nowhere; otherwise the token occurs at the result and at no smaller index |
| `JavaString.IndexOfFirst` | src/java.smartcardio/unix/classes/sun/security/smartcardio/PlatformPCSC.java:78 | any occurrence with none before it is the one `indexOf` reports |
| `JavaString.LeadingBlanks` | src/java.smartcardio/unix/classes/sun/security/smartcardio/PlatformPCSC.java:98 | the leading run of characters at or below U+0020 is blank and is followed by a non-blank or by the end |
| `JavaString.TrailingBlanks` | src/java.smartcardio/unix/classes/sun/security/smartcardio/PlatformPCSC.java:98 | the trailing run of characters at or below U+0020 is blank and is preceded by a non-blank or by the start |
| `JavaString.Trim` | src/java.smartcardio/unix/classes/sun/security/smartcardio/PlatformPCSC.java:98 | `trim` returns the slice that starts after the leading blanks; everything after that slice is blank; a non-empty result starts and ends with a non-blank |
| `JavaString.TrimEmptyIff` | src/java.smartcardio/unix/classes/sun/security/smartcardio/PlatformPCSC.java:98 | `trim` gives the empty string exactly when every character is at or below U+0020 |
| `JavaString.TrimOfPadded` | src/java.smartcardio/unix/classes/sun/security/smartcardio/PlatformPCSC.java:98 | independent characterisation: blank prefix + core + blank suffix trims to the core, when the core is empty or has non-blank ends |
| `JavaString.TrimIdempotent` | src/java.smartcardio/unix/classes/sun/security/smartcardio/PlatformPCSC.java:98 | trimming a trimmed string changes nothing |
| `JavaString.TrimDecomposes` | src/java.smartcardio/unix/classes/sun/security/smartcardio/PlatformPCSC.java:98 | every string is its leading blanks, then its trimmed core, then the rest |
| `PlatformPCSC.GetProperty` | src/java.smartcardio/unix/classes/sun/security/smartcardio/PlatformPCSC.java:98 | `getProperty(key, default)` gives the property's value when it is set and the default when it is not |
| `PlatformPCSC.LibDir` | src/java.smartcardio/unix/classes/sun/security/smartcardio/PlatformPCSC.java:84-91 | the directory is `lib64` exactly when `sun.arch.data.model` is set to "64", and `lib` in every other case, including an unset property |
| `PlatformPCSC.Expand` | src/java.smartcardio/unix/classes/sun/security/smartcardio/PlatformPCSC.java:77-94 | a string without `$LIBISA` comes back unchanged; when `$LIBISA` first occurs at k, the result is `lib[..k] + libDir + lib[k+7..]` |
| `PlatformPCSC.ExpandWithoutToken` | src/java.smartcardio/unix/classes/sun/security/smartcardio/PlatformPCSC.java:78-81 | a string without `$LIBISA` is returned unchanged |
| `PlatformPCSC.ExpandFirstToken` | src/java.smartcardio/unix/classes/sun/security/smartcardio/PlatformPCSC.java:78-93 | when `$LIBISA` first occurs at k, the result is `lib[..k] + libDir + lib[k+7..]`: the prefix and the whole suffix, later macros included, are kept verbatim |
| `PlatformPCSC.ExpandLength` | src/java.smartcardio/unix/classes/sun/security/smartcardio/PlatformPCSC.java:82-92 | with the macro present the result is the input's length minus 7 plus the directory's length: 2 shorter than the input for `lib64`, 4 shorter for `lib` |
| `PlatformPCSC.ExpandEmptyIff` | src/java.smartcardio/unix/classes/sun/security/smartcardio/PlatformPCSC.java:77-94 | expansion yields the empty string exactly when its input is empty |
| `PlatformPCSC.NoDollarNoToken` | src/java.smartcardio/unix/classes/sun/security/smartcardio/PlatformPCSC.java:78 | a string without `$` never contains the macro |
| `PlatformPCSC.FirstTokenAfterDollarFreePrefix` | src/java.smartcardio/unix/classes/sun/security/smartcardio/PlatformPCSC.java:78 | a macro at k with no `$` before it is the first occurrence |
| `PlatformPCSC.OccursShift` | src/java.smartcardio/unix/classes/sun/security/smartcardio/PlatformPCSC.java:83 | occurrences in a suffix are occurrences in the whole string, shifted by the prefix length, and conversely |
| `PlatformPCSC.LibDirAvoidsToken` | src/java.smartcardio/unix/classes/sun/security/smartcardio/PlatformPCSC.java:84-91 | no character of either directory name appears in `$LIBISA` |
| `PlatformPCSC.ReplaceFirstToken` | src/java.smartcardio/unix/classes/sun/security/smartcardio/PlatformPCSC.java:82-92 | putting any non-empty text that shares no character with `$LIBISA` in place of the first macro makes the suffix's first macro, shifted, the first macro of the result |
| `PlatformPCSC.ExpandNextToken` | src/java.smartcardio/unix/classes/sun/security/smartcardio/PlatformPCSC.java:77-94 | only the first macro is replaced: the first macro of the result is the first macro of the untouched suffix (shifted), or there is none; the inserted directory never forms a new macro with its neighbours |
| `PlatformPCSC.ExpandAfterDollarFreePrefix` | src/java.smartcardio/unix/classes/sun/security/smartcardio/PlatformPCSC.java:77-94 | `pre + "$LIBISA" + post` with no `$` in `pre` expands to `pre + libDir + post` |
| `PlatformPCSC.ExpandLib1` | src/java.smartcardio/unix/classes/sun/security/smartcardio/PlatformPCSC.java:50 | `/usr/$LIBISA/libpcsclite.so` expands to `/usr/` + libDir + `/libpcsclite.so` |
| `PlatformPCSC.ExpandLib2` | src/java.smartcardio/unix/classes/sun/security/smartcardio/PlatformPCSC.java:51 | `/usr/local/$LIBISA/libpcsclite.so` expands to `/usr/local/` + libDir + `/libpcsclite.so` |
| `PlatformPCSC.ExpandLinuxPaths` | src/java.smartcardio/unix/classes/sun/security/smartcardio/PlatformPCSC.java:50-51 | the two Linux paths become `/usr/lib64/...` and `/usr/local/lib64/...` when the data model is "64", and `/usr/lib/...` and `/usr/local/lib/...` otherwise |
| `PlatformPCSC.LibraryName` | src/java.smartcardio/unix/classes/sun/security/smartcardio/PlatformPCSC.java:96-105 | the resolved library name is never empty |
| `PlatformPCSC.FallbackIff` | src/java.smartcardio/unix/classes/sun/security/smartcardio/PlatformPCSC.java:98-99 | the expanded, trimmed property is empty, so the fallback is taken, exactly when the property is unset or blank |
| `PlatformPCSC.LibraryNameOverride` | src/java.smartcardio/unix/classes/sun/security/smartcardio/PlatformPCSC.java:98-101 | a property with a non-blank character resolves to `expand(trim(property))` |
| `PlatformPCSC.LibraryNameDefault` | src/java.smartcardio/unix/classes/sun/security/smartcardio/PlatformPCSC.java:102-104 | an unset, empty or all-blank property resolves to `libpcsclite.so.1` |
| `PlatformPCSC.TrimLib0` | src/java.smartcardio/unix/classes/sun/security/smartcardio/PlatformPCSC.java:49 | the fallback name has no blanks to trim |
| `PlatformPCSC.OverrideCanNameFallback` | src/java.smartcardio/unix/classes/sun/security/smartcardio/PlatformPCSC.java:98-104 | a set, non-blank override that names `libpcsclite.so.1` also resolves to that name, so the answer alone does not show that the fallback was taken |
| `PlatformPCSC.ExpandSameDir` | src/java.smartcardio/unix/classes/sun/security/smartcardio/PlatformPCSC.java:85-92 | expansion reads the system properties only through the chosen directory |
| `PlatformPCSC.OverrideKeepsLibDir` | src/java.smartcardio/unix/classes/sun/security/smartcardio/PlatformPCSC.java:85 | setting the override property does not change the directory choice |
| `PlatformPCSC.LibraryNameOfTrimmed` | src/java.smartcardio/unix/classes/sun/security/smartcardio/PlatformPCSC.java:98-104 | two property sets with the same trimmed override and the same directory resolve to the same name |
| `PlatformPCSC.LibraryNameIgnoresPadding` | src/java.smartcardio/unix/classes/sun/security/smartcardio/PlatformPCSC.java:98 | blanks around the override do not change the resolved name |
| `PlatformPCSC.TrimLib1` | src/java.smartcardio/unix/classes/sun/security/smartcardio/PlatformPCSC.java:50 | the `/usr` path has no blanks to trim |
| `PlatformPCSC.LibraryNameOfLinuxPath` | src/java.smartcardio/unix/classes/sun/security/smartcardio/PlatformPCSC.java:96-105 | the override `/usr/$LIBISA/libpcsclite.so` resolves to `/usr/lib64/libpcsclite.so` on a 64-bit JVM and to `/usr/lib/libpcsclite.so` otherwise |
| `PcscConstants.ProtocolFlags` | src/java.smartcardio/unix/classes/sun/security/smartcardio/PlatformPCSC.java:111-113 | T0, T1 and RAW are the single bits 2^0, 2^1, 2^2; no two share a bit; together they make 0x7 |
| `PcscConstants.CardStatesDouble` | src/java.smartcardio/unix/classes/sun/security/smartcardio/PlatformPCSC.java:115-121 | each card state is twice the one declared before it |
| `PcscConstants.CardStatePower` | src/java.smartcardio/unix/classes/sun/security/smartcardio/PlatformPCSC.java:115-121 | the i-th card state (UNKNOWN = 0, ..., SPECIFIC = 6) is 2^i, so the states are the consecutive powers of two 0x01 to 0x40 |
| `PcscConstants.CardStatePatterns` | src/java.smartcardio/unix/classes/sun/security/smartcardio/PlatformPCSC.java:115-121 | the 32-bit patterns of the card states are 0x01, 0x02, 0x04, 0x08, 0x10, 0x20, 0x40 in declaration order |
| `PcscConstants.CardStateBits` | src/java.smartcardio/unix/classes/sun/security/smartcardio/PlatformPCSC.java:115-121 | each card state is a single bit, and no two card states share a bit |
| `PcscConstants.CardStateUnion` | src/java.smartcardio/unix/classes/sun/security/smartcardio/PlatformPCSC.java:115-121 | together the card states make 0x7F |

## Left out

- The static initializer `initException` is left out. It does the privileged
  `System.loadLibrary("j2pcsc")`, calls `initialize` and captures any
  `Throwable`. This is class-loading and native-library I/O.
- The native `initialize(String)` is left out. It is a foreign call into the
  PC/SC library, and its behaviour is not visible in Java.
- `Debug` logging is left out. It is an output side effect only.
- `System.getProperty` is not modelled as global state. The properties are
  an explicit parameter of `LibDir`, `Expand` and `LibraryName`.
- `PCSC_FRAMEWORK` (the macOS path) is left out. The code never reads it.
- `IOException` in the signature of `getLibraryName` is left out. It is
  declared but never thrown.
- `String.trim` and `String.indexOf` are defined in `java.lang.String`,
  outside `PlatformPCSC`. They are modelled from their documented behaviour.
- The strings are sequences of Unicode code points (Dafny `char`), not of
  UTF-16 code units. An index therefore counts code points: for a character
  outside the Basic Multilingual Plane, `IndexOf` answers one less than
  Java's `indexOf` does. An unpaired surrogate in a property value cannot be
  represented. The strings that `Expand` and `Trim` return are not affected,
  because the macro and the blank characters are all ASCII.
- The PC/SC protocol, card communication and APDU exchange are left out.
  None of them is implemented in this class.
