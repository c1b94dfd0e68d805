# Verification model of the HTTP server's codecs and session machine

This project models five parts of the server that depend on each other, and proves that they fit together:

- **URLs** (`http_server/url`). `UrlChars`, `PercentCoding`, `UrlQuery`, `UrlPath`, `Ipv6Text` and `Ipv6Normalizer` hold
  the scans and codecs, `UrlParser` the parser and the builder, `UrlObject` the lazily parsed class and `UrlRuns` its runs.
  `UrlSyntax`, `UrlWriting` and `UrlModel` say what they compute, `Ipv6Normal` what an address text means, and `UrlParsed`,
  `UrlFixpoint` and `UrlEdges` prove when building and parsing are inverse. `UrlGrammar`, `UrlReads` and `UrlRefusals` are
  the accepted texts as a grammar in literal characters, what they mean, and why other texts are refused; `UrlStandard`
  spells out what is written, stored and read as a query, `UrlPathLaws` what a path becomes.
- **JSON** (`http_server/jwt/picojson`). `Json` and `JsonGrammar` specify the printers and the parser, `JsonPrinter`,
  `JsonReader` and `JsonParser` are the programs, `JsonRoundTrip`, `JsonAccepted` and `Utf8` the theorems. `JsonSyntax` is
  the syntax of RFC 8259 in literal characters; `JsonReads`, `JsonAccepts` and `JsonPrints` prove the parser and the
  printers against it.
- **Base64**, twice: `Base64` and `Base64Laws` for `jwt-cpp/base.h`, `CBase64` for `base64.c`, proved to agree;
  `Base64Tables` proves both against the tables of RFC 4648, bit by bit.
- **Tokens** (`http_server/jwt`). `Jwt` signs and decodes, `Verifier` checks, `Tokens` is what the service issues, and
  `TokenStandard` says what text that is and why other tokens are refused.
- **Sessions** (`http_server/users`, `http_server/api`). `TokenParts`, `TokenHeader` and `StoredTokens` say what a substring
  of a token can be, `Users` is the store and `ApiGate` the request handler as a step function; `UserRuns` and `ApiRuns`
  prove what holds over their runs, and `ApiEffects` what each request does after any run.

Bytes are the integers 0 to 255 and texts are sequences of bytes. Exceptions are failure results. A `std::map` is a
list of members with strictly increasing keys. The MAC is a function parameter from key and data to bytes, the clock a
number of nanoseconds passed in, and what the JSON library makes of a login body a parameter of the request.
Integers are unbounded except where the code depends on their width: the wrapping 32-bit number scan, the 16-bit
address fields, the signed version byte, the 64-bit JSON integers and the 24-bit Base64 words.

Code that changes state is imperative here too: the methods run over arrays, buffers and fields as the original does,
and each is proved against a function; the theorems are about those functions. `Arithmetic`, `Bytes`, `Segments` and
`Wrappers` are shared vocabulary.

## Where the code differs from what one expects

- The builder escapes user info, but the parser accepts no escapes there. `UrlEdges.UserInfoSurvives` gives the exact
  condition under which such a URL survives.
- A host written as a long spelling of the zero address is normalised to a lone `:`
  (`Ipv6Normalizer.NormalTextIsCanonical`, `UrlEdges.ZeroAddressIsLost`). The other hosts for which the canonical form is
  no fixpoint are some IPvFuture literals of version 0 or 4, because those versions are written back without brackets;
  `UrlFixpoint.HostStable` is the exact guard.
- The number scan wraps at 2^32, so 4294967376 passes for a port and 4294967297 for an octet of an IPv4 address.
  `UrlEdges.PortIsModulo` and `UrlEdges.Ipv4IsModulo` say exactly which texts are accepted.
- The host setter takes every text of two or more hexadecimal digits, colons and periods that does not look like IPv4 for
  an IPv6 text. So it refuses exactly those names of two or more bytes that consist of hexadecimal digits and periods,
  such as `abc.de` (`UrlObject.NameStored`).
- Behind the bracket of an IP literal anything that does not start with a colon is passed over, up to the path
  (`UrlGrammar.JunkOk`).
- The JSON parser takes zeros in front of a number (`JsonAccepts.LeadingZerosAreRead`) and stops at the end of the value
  (`JsonAccepts.ParseExactly`); otherwise it reads exactly the double-free texts of RFC 8259 that fit its depth.
- Nested arrays use up the JSON parser's depth and nested objects do not (`Json.Fits` follows the code).
- Logging out removes one stored copy of a token, and tokens made in the same two seconds are equal
  (`Tokens.TokenIdentifies`), so a logout need not end the session: it survives exactly when logins gave the token at
  least twice more often than it was taken away (`UserRuns.SessionSurvivesLogout`, `UserRuns.LogoutAfterTwoLogins`).
- The store finds tokens by substring. That is harmless: whatever the MAC function is, only whole stored tokens are ever
  accepted (`StoredTokens.AcceptedIsStored`, `UserRuns.AcceptedTokenIsKept`), and they are attributed to the user they name
  (`UserRuns.AcceptedTokenNamesUser`). Shorter parts are found too, but those that decode are refused, and the others
  raise an exception (`UserRuns.HeldThrows`).

## Model

| member | source | states |
|---|---|---|
| UrlFixpoint.CanonicalFormIsFixpoint | http_server/url/url.cpp:686-899 | For every accepted text, the URL built from its fields parses back to the same fields (default port dropped, version of a missing host reset) if and only if it has at most 8000 characters and its host is stable; building once more gives the same text |
| UrlFixpoint.UnstableDiffers | http_server/url/url.cpp:262-363 | A URL whose host is not stable never comes back: the built text fails to parse, or parses to a URL with a stable host, so that its host text or version is another |
| UrlParsed.ParseUrlProps | http_server/url/url.cpp:686-842 | Every accepted text has lower-case scheme and name, user characters only in its user info, a host fitting its version, a valid port and a clean path |
| UrlFixpoint.BuiltParses | http_server/url/url.cpp:845-899 | The text built from any well-formed fields with a stable host parses to their canonical form |
| UrlWriting.CutUrlText | http_server/url/url.cpp:695-790 | Cutting a URL text written from well-formed parts finds exactly those parts |
| UrlReads.ParseExactly | http_server/url/url.cpp:686-842 | A text parses to the fields exactly when both are empty, or the text has at most 8000 bytes, is one of a grammar spelled out in literal characters, and means these fields: scheme and name in lower case, IPv6 address in normal form, path, query and fragment decoded |
| UrlGrammar.CutExactly | http_server/url/url.cpp:695-790 | The texts the parser cuts, into which parts: exactly those of the grammar; what it passes over behind a bracketed literal is part of it |
| UrlGrammar.DecodeExactly | http_server/url/url.cpp:420-453 | Percent decoding succeeds exactly on plain bytes and whole escapes, in either case of the digits, and gives the bytes they stand for |
| UrlRefusals.SchemeRefused | http_server/url/url.cpp:706-715 | Whatever stands before a colon that comes before any of "/?#" and is no scheme is refused as one |
| UrlRefusals.AuthorityFirst | http_server/url/url.cpp:716-790 | The authority goes up to the first of "/?#" and is refused before anything behind it |
| UrlRefusals.UserFirst | http_server/url/url.cpp:720-729 | User info goes up to the first '@'; characters that do not belong there are refused before the host is looked at |
| UrlRefusals.UnclosedRefused | http_server/url/url.cpp:730-735 | An opening bracket without a closing one is refused for that |
| UrlRefusals.LiteralFirst | http_server/url/url.cpp:730-773 | A bracketed literal is refused before the port, unless it is made of hexadecimal digits, colons and periods or is "v", one hexadecimal digit, a period and user characters |
| UrlRefusals.NameFirst | http_server/url/url.cpp:753-773 | A name is refused before the port when it holds a character other than unreserved ones and sub-delims; otherwise its version is 4 or 0 |
| UrlRefusals.PortRefused | http_server/url/url.cpp:766-773 | Behind the host a colon announces a port, refused exactly when its value modulo 2^32 is above 65535 or it is no plain number; anything else is passed over |
| UrlRefusals.PathFirst | http_server/url/url.cpp:774-790 | Where path, query and fragment end, and that a bad path is refused before a bad fragment |
| UrlRefusals.MeaningRefused | http_server/url/url.cpp:792-842 | A text that is cut but denotes no fields is refused for its host, else for an escape in its path, else for its query, else for an escape in its fragment |
| UrlRefusals.LongRefused | http_server/url/url.cpp:692-693 | A text is refused for its length exactly when it has more than 8000 bytes |
| UrlParser.ParseText | http_server/url/url.cpp:686-842 | The pointer-walking parser computes the fields a URL text denotes, or the same error |
| UrlParser.CutUrlAt | http_server/url/url.cpp:695-790 | The scans for scheme, authority, path, query and fragment locate the specified parts, and reject what the specification rejects |
| UrlParser.CutAuthorityAt | http_server/url/url.cpp:718-773 | User info, host and port of the range up to the authority's end |
| UrlParser.CutLiteralAt | http_server/url/url.cpp:730-752 | A bracketed literal: an IPvFuture version and host, or an IPv6 text |
| UrlParser.BuildText | http_server/url/url.cpp:845-899 | The builder writes the text of the fields, or refuses them for the same reason |
| UrlStandard.BuiltText | http_server/url/url.cpp:845-899 | The whole built text with its separators: scheme, user info, host, bracketed literal, port unless http goes with 80 or https with 443, path, query and fragment |
| UrlStandard.BuildRefuses | http_server/url/url.cpp:848-872 | Exactly which fields are refused by the builder |
| UrlRefusals.BuildRefused | http_server/url/url.cpp:848-888 | The reason they are refused with, the first that applies |
| UrlStandard.RebuiltPort | http_server/url/url.cpp:861 | Building and parsing loses the port exactly for http with 80 and https with 443, and changes nothing else but the version of a missing host |
| UrlParser.NormalizeAddress | http_server/url/url.cpp:798-804 | The normal form of a decoded IPv6 host |
| UrlEdges.UserInfoSurvives | http_server/url/url.cpp:723-729 | URLs with user info set from outside survive building and parsing exactly when the user info needs no escape; otherwise the parser rejects the user info |
| UrlEdges.PortIsModulo | http_server/url/url.cpp:72-85 | A text is a port exactly when it is "0", or digits without a leading zero whose decimal value modulo 2^32 is at most 65535 |
| UrlEdges.Ipv4IsModulo | http_server/url/url.cpp:166-172 | A text is an IPv4 address exactly when its period-separated pieces are four, each "0" or digits without a leading zero whose decimal value modulo 2^32 is at most 255 |
| UrlEdges.WrappedPortAccepted | http_server/url/url.cpp:76-79 | 4294967376 passes for a port |
| UrlEdges.ZeroAddressIsLost | http_server/url/url.cpp:343-362 | "//[0::]" parses to the host ":", and what is built from that does not parse back |
| UrlChars.IsChars | http_server/url/url.cpp:44-50 | True exactly when every byte of the range is in the masked classes of the table |
| UrlStandard.MasksAreRfc3986 | http_server/url/url.cpp:13-37 | The table's classes are the character sets of section 2 of RFC 3986, with the extra characters of each part |
| UrlChars.FindFirstOf | http_server/url/url.cpp:110-117 | The first position holding one of the stop bytes, or the end |
| UrlChars.FindChar | http_server/url/url.cpp:119-124 | The first position holding the byte, or the end |
| PercentCoding.DecodePercent | http_server/url/url.cpp:420-434 | Percent decoding, failing on a broken escape |
| PercentCoding.DecodePlus | http_server/url/url.cpp:436-453 | Percent decoding with '+' for a space |
| PercentCoding.WriteEncoded | http_server/url/url.cpp:455-527 | The three encoders write the escaped text of their input |
| UrlStandard.LowerIs | http_server/url/url.cpp:97-101 | Schemes and names are put into lower case: exactly the capital letters move, each to its small one |
| UrlStandard.EncodeByteIs | http_server/url/url.cpp:455-527 | What each of the three encoders writes for a byte: the byte, '+', or '%' and two upper-case hexadecimal digits |
| PercentCoding.DecodeEncode | http_server/url/url.cpp:420-527 | Decoding undoes encoding for every byte string, mask without '%' and encoder |
| PercentCoding.EncodedChars | http_server/url/url.cpp:471-527 | Encoded text stays within the mask and '%'; keys never hold "=;&", values never ";&" |
| UrlQuery.ReadQuery | http_server/url/url.cpp:809-828 | The query loop returns the specified list of entries or error |
| UrlStandard.QueryIsPieces | http_server/url/url.cpp:809-828 | A query is read as its pieces between '&' and ';', each a key, or a key and a value around the first '=', with the first wrong piece's error |
| UrlQuery.WriteQuery | http_server/url/url.cpp:879-894 | The builder's query loop writes the specified text, or fails when an entry has no key |
| UrlQuery.QueryRoundTrip | http_server/url/url.cpp:809-894 | Any list of pairs with non-empty keys and arbitrary bytes is read back unchanged from its query text |
| UrlQuery.BuiltQueryChars | http_server/url/url.cpp:814-821 | A built query passes the parser's character check |
| UrlPath.NormalizePath | http_server/url/url.cpp:381-417 | The getline and stack loops compute the normal form of a path |
| UrlPathLaws.NormalizeIsKept | http_server/url/url.cpp:381-417 | The result is the path whose segments are those not cancelled by a later "..", found reading from the right; the last segment is treated like the others |
| UrlPathLaws.TrailingUpCancels | http_server/url/url.cpp:394-406 | A trailing "/x/.." with x ordinary leaves what the path is without it |
| UrlPathLaws.TrailingDot | http_server/url/url.cpp:394-406 | A trailing "/." is dropped |
| UrlPathLaws.TrailingUpAtFront | http_server/url/url.cpp:394-406 | A trailing ".." with nothing to cancel is dropped |
| UrlPathLaws.NothingLeft | http_server/url/url.cpp:394-417 | One segment and "..", "." or ".." alone, absolute and relative: nothing is left but the slash |
| UrlPathLaws.EmptySegment | http_server/url/url.cpp:384-393 | An empty segment inside a path is dropped |
| UrlPathLaws.LeadingDots | http_server/url/url.cpp:384-393 | Leading "./" and "../" of a relative path are dropped, and "/../" at the root is "/" |
| UrlPath.NormalizeIsClean | http_server/url/url.cpp:381-417 | The result has no ".", ".." or empty interior segment, keeps the absolute flag, and is the path itself exactly when that was clean |
| UrlPath.NormalizeIdempotent | http_server/url/url.cpp:381-417 | Normalising twice is normalising once |
| UrlPath.NormalizeSkipsDot | http_server/url/url.cpp:388-392 | Inserting "./" after any slash changes nothing |
| UrlPath.NormalizeSkipsUp | http_server/url/url.cpp:388-392 | Inserting "x/../" after any slash, x an ordinary segment, changes nothing |
| Ipv6Text.IsUint | http_server/url/url.cpp:72-85 | How far the number scan moves, its value kept in wrapping 32-bit arithmetic |
| Ipv6Text.IsValidIpv4 | http_server/url/url.cpp:166-172 | Four wrapping number scans up to 255 with periods between them; `UrlEdges.Ipv4IsModulo` says which texts that are |
| Ipv6Text.IsValidIpv6 | http_server/url/url.cpp:212-254 | The one-pass loop computes the recogniser's verdict |
| Ipv6Text.RecogniserIsGrammar | http_server/url/url.cpp:212-254 | On text without a period the recogniser accepts exactly the texts of section 2.2 of RFC 4291 |
| Ipv6Normalizer.NormalizeIpv6 | http_server/url/url.cpp:262-363 | The array program, with its token and field arrays shifted in place, returns the specified text of a valid address |
| Ipv6Normalizer.SplitTokens | http_server/url/url.cpp:268-285 | The token array holds where each colon-separated piece starts, and the end behind the last |
| Ipv6Normalizer.DecodeFields | http_server/url/url.cpp:295-308 | The fields are the values of the groups in order; the gap is where the empty piece was |
| Ipv6Normalizer.SpreadFields | http_server/url/url.cpp:309-316 | The groups behind the gap move to the end of the array and zeros fill the room |
| Ipv6Normalizer.FindZeroRun | http_server/url/url.cpp:318-336 | The leftmost of the longest zero runs |
| Ipv6Normalizer.NormalTextIsCanonical | http_server/url/url.cpp:262-363 | The result is the RFC 5952 text of the same address if and only if the text is "::" or names a non-zero address; otherwise it is a lone ':' |
| Ipv6Normalizer.NormalTextIdentifies | http_server/url/url.cpp:262-363 | Normalising is idempotent, and two texts normalise alike exactly when they name the same address |
| Ipv6Normal.LongestRunIsBest | http_server/url/url.cpp:318-336 | No zero run is longer than the chosen one and none as long starts further left (section 4.2.3 of RFC 5952) |
| Ipv6Normal.CanonicalDenotes | http_server/url/url.cpp:343-362 | The canonical text of eight fields is a valid text that denotes them |
| UrlObject.Url.FromText | http_server/url/url.hpp:36 | A Url made from a text shows what the text parses to |
| UrlObject.Url.Copy | http_server/url/url.hpp:30 | A copy shows the same as its original |
| UrlObject.Url.Assign | http_server/url/url.cpp:529-546 | Assignment shows the source's fields even where the cached text is left stale |
| UrlObject.Url.Parse | http_server/url/url.cpp:686-842 | Parsing changes nothing that is shown; a failing parse touches no field |
| UrlObject.Url.Build | http_server/url/url.cpp:845-899 | Building stores the text of the shown fields and leaves m_built down |
| UrlObject.Url.Str | http_server/url/url.hpp:51 | str returns the built text of what is shown, whatever is cached |
| UrlObject.Url.Clear | http_server/url/url.cpp:670-683 | A cleared Url shows the empty record |
| UrlObject.Url.SetSchemeTo | http_server/url/url.cpp:566-580 | The scheme setter has its effect on the shown record, or throws and changes nothing |
| UrlStandard.SetSchemeIs | http_server/url/url.cpp:566-580 | The new scheme is stored in lower case, and its implied port dropped, http 80 and https 443 only, unless the scheme stays the same |
| UrlObject.Url.SetHostTo | http_server/url/url.cpp:594-628 | The host setter has its effect on the shown record, or throws and changes nothing |
| UrlStandard.SetHostIs | http_server/url/url.cpp:594-628 | The host setter stores host and version and nothing else: an IPv4 address as it is, an IPv6 address in normal form, a name in lower case, and under any version but 0, 4 and 6 a text of IPv6 characters with that version |
| UrlObject.Url.SetPortTo | http_server/url/url.cpp:630-643 | The port setter, which drops a scheme's default port |
| UrlStandard.SetPortIs | http_server/url/url.cpp:630-643 | The port is stored, or dropped exactly for http with 80 and https with 443 |
| UrlObject.Url.SetPathTo | http_server/url/url.cpp:645-656 | The path setter, which normalises |
| UrlStandard.SetPathIs | http_server/url/url.cpp:645-656 | The stored path is clean, keeps the absolute flag, and is the given one exactly when that was clean |
| UrlStandard.SettersStore | http_server/url/url.cpp:582-667 | Each of the other setters stores into its own field and changes no other, within its length limit |
| UrlRuns.Perform | http_server/url/url.hpp:27-198 | Every call answers and acts as it would on a plain record of fields |
| UrlRuns.PerformIn | http_server/url/url.hpp:27-198 | A call on one Url of a pool, an assignment between two or a copy changes that one as on plain records, and no other |
| UrlRuns.Replay | http_server/url/url.hpp:27-198 | Over every run of getters, setters, str, clear, assignments and copies among any number of live Urls, each answers like a plain record: lazy parsing, caching and stale texts are unobservable |
| UrlObject.NameStored | http_server/url/url.cpp:594-628 | The host setter stores a text that is a name to the parser as that name in lower case, and refuses it exactly when it consists of two or more hexadecimal digits and periods |
| JsonPrinter.WriteString | http_server/jwt/picojson/picojson.h:529-564 | The escaping loop appends the string literal of its input |
| JsonPrinter.WriteValue | http_server/jwt/picojson/picojson.h:581-644 | The recursive printer appends the text of the value, and a line end at indentation 0 only |
| JsonPrinter.SerializeValue | http_server/jwt/picojson/picojson.h:566-572 | Compact and pretty serialisation produce the specified texts |
| JsonPrints.SerializeIsJson | http_server/jwt/picojson/picojson.h:566-644 | What is printed is a text of RFC 8259 without leading zeros that means the value: compact, or with two spaces a level, a space behind each colon and a line end behind it all |
| JsonPrints.IntTextIsShortest | http_server/jwt/picojson/picojson.h:489 | An integer is printed as the only decimal text of it without a leading zero, with '-' exactly in front of a negative one |
| JsonPrints.CharIsForm | http_server/jwt/picojson/picojson.h:529-556 | The escape of each byte: quote, backslash and slash behind a backslash, the five letters, lower-case "\\u00xx" for other control characters and DEL, and the byte itself otherwise |
| JsonReader.PeekIsInvisible | http_server/jwt/picojson/picojson.h:661-677 | In any run of calls, a getc with its ungetc changes nothing of what the other calls return, unless an ungetc for an earlier byte follows |
| JsonReader.Input.Getc | http_server/jwt/picojson/picojson.h:661-674 | The next byte or -1, on a logical position; the line number stays 1 plus the newlines before cur_ |
| JsonReader.Input.Ungetc | http_server/jwt/picojson/picojson.h:675-677 | The logical position after giving back |
| JsonReader.Input.Settle | http_server/jwt/picojson/picojson.h:678-685 | cur() keeps the logical position, and the line count stays exact unless a newline was just read |
| JsonReader.Input.Line | http_server/jwt/picojson/picojson.h:686-688 | line() lags behind the logical position exactly when a newline was just read |
| JsonReader.Input.SkipSpace | http_server/jwt/picojson/picojson.h:689-697 | What is left is the text behind its leading white space |
| JsonReader.Input.ExpectByte | http_server/jwt/picojson/picojson.h:698-705 | Consumes the expected byte and the white space before it, or only the white space |
| JsonReader.Input.MatchText | http_server/jwt/picojson/picojson.h:706-714 | True exactly when the pattern comes next, and then it is consumed |
| JsonParser.ReadQuadHex | http_server/jwt/picojson/picojson.h:717-736 | The value of four hexadecimal digits, -1 otherwise |
| JsonParser.ReadCodepoint | http_server/jwt/picojson/picojson.h:738-777 | One escape or surrogate pair appends the bytes of its scalar value, or fails |
| JsonParser.ReadString | http_server/jwt/picojson/picojson.h:779-818 | The loop returns the string the grammar reads and leaves the text behind it |
| JsonParser.ReadNumber | http_server/jwt/picojson/picojson.h:856-874 | The longest run of number characters |
| JsonParser.Context.ArrayStart | http_server/jwt/picojson/picojson.h:996-1002 | Arrays take one level of depth and fail when none is left |
| JsonParser.Context.ObjectStart | http_server/jwt/picojson/picojson.h:1013-1018 | Objects need a level of depth but take none |
| JsonParser.ReadArray | http_server/jwt/picojson/picojson.h:820-835 | The array the grammar reads at this depth, or its failure |
| JsonParser.ReadObject | http_server/jwt/picojson/picojson.h:837-854 | The object the grammar reads at this depth, later members replacing earlier ones of the same key |
| JsonParser.ReadValue | http_server/jwt/picojson/picojson.h:876-928 | The mutually recursive parser computes the grammar's value, rest and failure, and terminates on every input |
| JsonParser.ParseText | http_server/jwt/picojson/picojson.h:1129-1133 | parse returns the grammar's value of a whole text |
| JsonAccepts.ParseExactly | http_server/jwt/picojson/picojson.h:661-928 | The parser accepts exactly the texts that begin, behind white space, with a double-free value of RFC 8259 of 64-bit integers within depth 100, zeros in front of a number allowed, and returns what that value means |
| JsonReads.ParseRead | http_server/jwt/picojson/picojson.h:661-928 | Every such text is read as what it means, whatever white space and escapes it uses and whatever follows it |
| JsonAccepts.LeadingZerosAreRead | http_server/jwt/picojson/picojson.h:856-928 | Any number of zeros in front of a number is read, though section 6 of RFC 8259 forbids it |
| JsonRoundTrip.ParseSerialize | http_server/jwt/picojson/picojson.h:559-928 | For every double-free value, parsing its compact or pretty text gives it back if it fits depth 100, and fails otherwise |
| JsonRoundTrip.ValueRoundTrip | http_server/jwt/picojson/picojson.h:581-1027 | The same at any depth, indentation and position in a text |
| JsonRoundTrip.PrettyReadsAsCompact | http_server/jwt/picojson/picojson.h:574-705 | Pretty and compact text of any value parse alike |
| JsonRoundTrip.TextIsInjective | http_server/jwt/picojson/picojson.h:581-644 | Different values have different texts, however deep they are |
| JsonAccepted.AcceptedRoundTrip | http_server/jwt/picojson/picojson.h:581-928 | Whatever text a value came from, printing and parsing it again gives the same value |
| JsonAccepted.AcceptedIsGood | http_server/jwt/picojson/picojson.h:876-1027 | Accepted values have strictly sorted keys and 64-bit integers and fit the depth they were parsed with |
| JsonAccepted.StoreIsMapUpdate | http_server/jwt/picojson/picojson.h:1019-1023 | o[key] on the sorted list is a map update: sorted, sets the key, leaves the others |
| Utf8.ValueWellEncoded | http_server/jwt/picojson/picojson.h:779-928 | A value accepted from well-formed UTF-8 holds only well-formed UTF-8 |
| Utf8.StringWellEncoded | http_server/jwt/picojson/picojson.h:779-818 | A string accepted from well-formed UTF-8 is well-formed UTF-8, and so is the text behind it |
| Utf8.EscapeEncodes | http_server/jwt/picojson/picojson.h:738-777 | An escape or surrogate pair (section 7 of RFC 8259) yields exactly one character with its scalar value |
| Utf8.EncodingIsUnique | http_server/jwt/picojson/picojson.h:759-775 | That character is the only encoding of the scalar value in section 3 of RFC 3629 |
| Base64.EncodeText | http_server/jwt/jwt-cpp/base.h:82-129 | The 24-bit word loop writes the specified digits and fill |
| Base64.DecodeText | http_server/jwt/jwt-cpp/base.h:131-187 | The fill, sextet and word loops compute the specified bytes, and throw on exactly the other inputs |
| Base64Tables.DigitIsTable | http_server/jwt/jwt-cpp/base.h:27-75 | The digits are the entries of the tables of RFC 4648 |
| Base64Tables.SextetIsTable | http_server/jwt/jwt-cpp/base.h:147-156 | A byte is decoded to its place in the table and refused exactly when it has none |
| Base64Tables.EncodeIsTable | http_server/jwt/jwt-cpp/base.h:82-129 | Digit j of an encoding is the table's entry for bits 6j to 6j + 5, and "=" or "%3d" completes it |
| Base64Tables.DecodeExactly | http_server/jwt/jwt-cpp/base.h:131-187 | Exactly those texts are decoded that are digits of the table and up to two fills, a multiple of four together |
| Base64.CountFills | http_server/jwt/jwt-cpp/base.h:135-144 | The number of fills at the end and the size without them; more than two is an error |
| Base64.PadText | http_server/jwt/jwt-cpp/base.h:189-199 | Padding completes the length to a multiple of four fills or digits |
| Base64Laws.DecodeEncode | http_server/jwt/jwt-cpp/base.h:82-187 | Decoding undoes encoding for every byte string and both alphabets |
| Base64Laws.PadTrim | http_server/jwt/jwt-cpp/base.h:189-204 | Trimming leaves the digits and padding restores the encoding, also with the three-character fill |
| Base64Laws.EncodeDecode | http_server/jwt/jwt-cpp/base.h:82-187 | Encoding the bytes of an accepted text gives it with the unused bits of its last sextet cleared (section 3.5 of RFC 4648), and the very text exactly when they were clear |
| CBase64.Base64Encode | base64.c:179-209 | The C encoder writes the characters of the C++ encoder and a NUL, exactly Base64encode_len of them, and nothing behind |
| CBase64.Base64Decode | base64.c:126-169 | On any NUL-terminated text: writes the bytes of the leading digits and a NUL, returns their number, stays within Base64decode_len |
| CBase64.Basis | base64.c:172 | Entry i of basis_64 is digit i of the standard alphabet |
| CBase64.Pr2six | base64.c:88-109 | Entry c of pr2six is the place of c in that alphabet, 64 for the bytes outside |
| CBase64.Base64DecodeLen | base64.c:111-124 | The room Base64decode needs at most |
| CBase64.RoomIsTight | base64.c:111-124 | Base64decode_len leaves room for the decoded bytes and a NUL, and for no more exactly when the digits are whole quads |
| CBase64.EncodedLength | base64.c:174-177 | Base64encode_len is the length of the encoding with its NUL |
| CBase64.DecodersAgree | base64.c:126-169 | On every text the C++ decoder accepts, the C decoder finds the same bytes |
| CBase64.CRoundTrip | base64.c:111-209 | The C decoder undoes the C encoder |
| Jwt.Builder.SetPayloadClaim | http_server/jwt/jwt-cpp/jwt.h:2413-2416 | Setting a claim is a map update that keeps the claims well formed |
| Jwt.Builder.Sign | http_server/jwt/jwt-cpp/jwt.h:2568-2581 | The token is header, payload and MAC of both in base64url, "alg" added if missing, the builder unchanged |
| Jwt.FindDot | http_server/jwt/jwt-cpp/jwt.h:2308-2312 | The position of the next dot, or the end |
| Jwt.ReadToken | http_server/jwt/jwt-cpp/jwt.h:2307-2322 | The decoder computes the specified parts and claims, or throws for the specified reason |
| Jwt.ParseClaims | http_server/jwt/jwt-cpp/jwt.h:2019-2024 | Claims are the members of a JSON object; any other text throws |
| Jwt.DecodeSigned | http_server/jwt/jwt-cpp/jwt.h:2307-2581 | Decoding a signed token recovers header, claims and MAC exactly when the claims fit the parser's depth, and fails otherwise |
| Jwt.CutJoined | http_server/jwt/jwt-cpp/jwt.h:2308-2314 | The first two dots split a token whose first two parts have none |
| Jwt.ArmorIsDotFree | http_server/jwt/jwt-cpp/jwt.h:2595-2601 | No base64url part contains a dot |
| Verifier.SameBytes | http_server/jwt/jwt-cpp/jwt.h:732-739 | The comparison without early exit is true exactly on equal texts |
| Verifier.AsSet | http_server/jwt/jwt-cpp/jwt.h:1947-1953 | The sorted set of an array's strings, or bad_cast when an element is no string |
| Verifier.SortedIsDetermined | http_server/jwt/jwt-cpp/jwt.h:2790-2797 | Sorted lists with the same elements are equal, so comparing them in order compares sets |
| Verifier.CheckClaim | http_server/jwt/jwt-cpp/jwt.h:2768-2811 | A required claim is met by an equal value of the same type, arrays counting as sets, objects compared by text |
| Verifier.CheckAudience | http_server/jwt/jwt-cpp/jwt.h:2848-2863 | The expected audiences must be a subset of the token's |
| Verifier.AudienceAccepted | http_server/jwt/jwt-cpp/jwt.h:2848-2863 | An audience is met exactly when the token's claim names every expected one; a missing claim mismatches, one that names none throws |
| Verifier.ClaimAccepted | http_server/jwt/jwt-cpp/jwt.h:2768-2811 | Exactly which payload values satisfy a required claim: an equal value, or for arrays of strings one with the same strings in any order and number; booleans, nulls and other arrays never do |
| Verifier.WindowsAccepted | http_server/jwt/jwt-cpp/jwt.h:2813-2844 | For well-typed claims the time checks pass exactly inside the three windows with their leeways |
| Verifier.IllDatedThrows | http_server/jwt/jwt-cpp/jwt.h:2813-2844 | A time claim throws exactly when it or the verifier's own claim of that name is no number |
| Verifier.TokenVerifier.Verify | http_server/jwt/jwt-cpp/jwt.h:2756-2869 | Accepts exactly when algorithm, MAC, windows and every required claim hold, whatever order the claim map is iterated in; the fixed checks decide first, and any other verdict is that of some required claim |
| Verifier.TokenVerifier.CheckClaims | http_server/jwt/jwt-cpp/jwt.h:2845-2869 | The loop over the unordered map accepts exactly when all claims do |
| Tokens.CreateToken | http_server/jwt/json_web_tokens.cpp:30-42 | The token of a user for the two clock readings, cut to seconds, expiring a minute later |
| TokenStandard.TokenIs | http_server/jwt/json_web_tokens.cpp:30-42 | The text of a token, character by character: header, claims in their order with the issuer, and the MAC over the first two parts under the key, all in base64url |
| TokenStandard.CreatedIs | http_server/jwt/json_web_tokens.cpp:34-38 | Its seconds for two clock readings in nanoseconds: issued at once, expiring after 60 seconds |
| TokenStandard.ArmorIsTable | http_server/jwt/jwt-cpp/jwt.h:2595-2601 | base64url without fill: one digit of the table for every six bits and nothing behind |
| Tokens.Verify | http_server/jwt/json_web_tokens.cpp:13-28 | The verdict of the general verifier with this issuer and HS256 only |
| TokenStandard.SignedIs | http_server/jwt/jwt-cpp/jwt.h:2568-2581 | Signing adds the algorithm's name to a header that has none, and changes no other header |
| TokenStandard.CutExactly | http_server/jwt/jwt-cpp/jwt.h:2308-2314 | A token is cut at its first two dots, and refused for its dots exactly when it has fewer |
| TokenStandard.PartsRefused | http_server/jwt/jwt-cpp/jwt.h:2315-2322 | Parts that are no base64url are refused before any claims are read, the header's claims before the payload's, and JSON that is no object apart from what is no JSON |
| TokenStandard.UnsignedIsRefused | http_server/jwt/jwt-cpp/jwt.h:2756-2769 | Any token whose header names no algorithm throws, one that names another is refused for its algorithm, one with another MAC for its signature, whatever its claims say |
| TokenStandard.SignedVerdict | http_server/jwt/json_web_tokens.cpp:13-28 | A rightly signed token is accepted exactly when its times hold and it names the issuer, else it has expired, lacks the issuer, or has one of another type or value |
| Tokens.TokenDecodes | http_server/jwt/json_web_tokens.cpp:13-42 | For every user name, decoding a created token recovers its header, claims and MAC |
| Tokens.TokenIdentifies | http_server/jwt/json_web_tokens.cpp:30-42 | Two created tokens are equal exactly when user name, issuing and expiry second are |
| Tokens.TokenWindow | http_server/jwt/json_web_tokens.cpp:13-42 | A created token is accepted exactly from its issuing second to its expiry second, for every user name and MAC function |
| Tokens.CreateAndVerify | http_server/jwt/json_web_tokens.cpp:13-42 | The same from clock reading to verdict; a token is always good for its first 59 seconds and never after 60 |
| TokenParts.SubstringParts | http_server/users/users_storage.cpp:114-117 | A text with two dots inside a token has the token's payload, the end of its header and the start of its signature |
| TokenParts.FindsIsContains | http_server/users/users_storage.cpp:116 | The search finds exactly the substrings |
| StoredTokens.SubstringNamesOwner | http_server/users/users_storage.cpp:107-140 | A decodable substring of a stored token carries the owner's name |
| StoredTokens.AcceptedIsStored | http_server/users/users_storage.cpp:97-105 | An accepted substring of a stored token is that whole token, whatever the MAC function |
| StoredTokens.SubstringIsChecked | http_server/users/users_storage.cpp:97-105 | A substring that decodes has the stored token's header and payload claims, so checking it raises no exception |
| TokenHeader.OnlyHeader | http_server/jwt/jwt-cpp/jwt.h:2307-2322 | Of all the ends of a token's header part, only the whole of it decodes to a JSON object |
| Users.UserStore.AuthenticateUser | http_server/users/users_storage.cpp:44-62 | The first user with both credentials gets the new token; a wrong password does not end the search |
| Users.UserStore.DisproveUser | http_server/users/users_storage.cpp:69-81 | One occurrence of the exact token leaves the first user who keeps it |
| Users.UserStore.TokenExist | http_server/users/users_storage.cpp:125-141 | True exactly when some stored token contains the text |
| Users.UserStore.GetUserData | http_server/users/users_storage.cpp:107-123 | The first user with a token containing the text, or the empty user |
| Users.UserStore.CheckAccess | http_server/users/users_storage.cpp:83-95 | True exactly when that user has the route |
| Users.UserStore.VerifyToken | http_server/users/users_storage.cpp:97-105 | The verdict on a known token; a refused one is removed, an exception changes nothing |
| UserRuns.RunKeepsOwned | http_server/users/users_storage.cpp:44-140 | After every run of logins, verifications and logouts user names are distinct and each stored token names the user who keeps it |
| UserRuns.KeptLogin | http_server/users/users_storage.cpp:44-140 | After every run each stored token was given by a login of that run, made with the name and password of the user who keeps it |
| UserRuns.CopiesConserved | http_server/users/users_storage.cpp:44-105 | Over every run the copies of a token that a user keeps are as many as logins gave less those taken away |
| UserRuns.AcceptedTokenWasGiven | http_server/users/users_storage.cpp:44-140 | In every reachable state a token is accepted only if a login of the run, with the name and password of the user it is attributed to, was answered with it, and only in the minute that login started |
| UserRuns.AcceptedTokenNamesUser | http_server/users/users_storage.cpp:83-140 | In every reachable state an accepted token is attributed to the user its payload names, and no other user holds it |
| UserRuns.AcceptedTokenIsKept | http_server/users/users_storage.cpp:97-140 | In every reachable state only stored tokens are accepted, and the user they are attributed to is the one who keeps them |
| UserRuns.HeldThrows | http_server/users/users_storage.cpp:97-105 | Verification raises an exception exactly for parts of stored tokens that do not decode |
| UserRuns.LogoutEndsSession | http_server/users/users_storage.cpp:69-81 | After a logout the token is unknown exactly when at most the removed token contained it |
| UserRuns.SessionSurvivesLogout | http_server/users/users_storage.cpp:69-105 | In every reachable state an accepted token is still accepted after a logout exactly when the run's logins gave it at least twice more often than it was taken away |
| UserRuns.LogoutAfterTwoLogins | http_server/users/users_storage.cpp:44-81 | After two logins in the same second one logout leaves the token accepted |
| UserRuns.LogoutRemovesOne | http_server/users/users_storage.cpp:69-81 | A logout takes away exactly one stored token, and only an equal one |
| ApiGate.ApiHandler.HandleApiRequest | http_server/api/api_handler.h:33-68 | One step of the machine: users, context, status and response together |
| ApiGate.ApiHandler.LoginUser | http_server/api/api_handler.cpp:31-49 | The login step: token, wrong credentials or bad JSON |
| ApiGate.ApiHandler.ExecuteRouteMethod | http_server/api/api_handler.cpp:51-102 | The three routed methods, run on the stored context |
| ApiRuns.StoredWasAnswered | http_server/api/api_handler.h:33-68 | After every run of requests each stored token was the answer to a login request of the user who keeps it |
| ApiRuns.AcceptedExactly | http_server/api/api_handler.h:40-60 | After every run of requests a token is accepted exactly in a session: a user keeps it, a login of the run with that user's name and password was answered with it, and its minute is not over; it is then attributed to that user |
| ApiRuns.StatusMeaning | http_server/api/api_handler.h:33-68 | After every run, exactly which sessions, routes and tokens give each status of a request |
| ApiEffects.LoginRequest | http_server/api/api_handler.cpp:31-49 | After every run a login succeeds exactly with admin/123 or user/456; it answers the token of that name and the two clock readings, gives that user one copy of it, and changes nothing else |
| ApiEffects.BadLogin | http_server/api/api_handler.cpp:31-49 | A login whose body is not the expected JSON is answered so and changes nothing |
| ApiEffects.LogoutRequest | http_server/api/api_handler.cpp:51-56 | After every run a logout in a session succeeds, takes exactly one copy of the token from its user and nothing else from anybody, and the token is accepted afterwards exactly when that user kept it at least twice |
| ApiEffects.LastLogoutLocksOut | http_server/api/api_handler.cpp:51-56 | From the logout that takes a token's last copy on, no run of requests makes the token accepted again until a login is answered with it |
| ApiEffects.InfoRequest | http_server/api/api_handler.cpp:73-89 | After every run a session's info request answers its user's data and changes no user |
| ApiEffects.SecretRequest | http_server/api/api_handler.cpp:58-71 | After every run the secret method is called for the administrator and forbidden to everybody else, and changes no user |
| ApiEffects.NoTokenRefused | http_server/api/api_handler.h:33-68 | Without a token nothing but a login is served |
| ApiRuns.FailureKeepsSessions | http_server/api/api_handler.h:40-60 | A request that fails ends a session exactly when it uses the session's own token at a time when it is refused and just one copy is kept |
| ApiRuns.MethodsRunForNamedUser | http_server/api/api_handler.h:44-67 | After every run of requests a routed method runs only for the user named in the token, only on that user's routes, and only if an earlier request logged that user in with name and password and was answered with this token, whose minute is not over; what /api/info returns is that user |
| ApiRuns.SessionLasts | http_server/api/api_handler.h:33-68 | From login to use: whatever requests come between, a token that was neither logged out nor refused serves its user's routes during its lifetime |
| ApiRuns.OnlyLogoutEnds | http_server/api/api_handler.h:44-60 | Within its lifetime only a request to the logout route with the token ends its session |

## Left out

- UrlParser.ParseText: IPv6 hosts with a period, and hosts of IPv6 characters that are no valid address, end in the
  error `UnmodelledIpv6`; what the original does with some of them is undefined, for others it keeps an IPv4 tail.
- UrlParser.NormalizeAddress: likewise; a valid address with an IPv4 tail is set apart as `UnmodelledIpv6` too.
- UrlObject.Url.SetHostTo: likewise `UnmodelledIpv6` for a valid IPv6 text with a period.
- JsonParser.ReadValue: a number that is no 64-bit integer ends in the failure `NotInteger`, where the original goes on to
  `strtod`; `strtoimax` is taken as the C standard describes it.
- JsonParser.ReadValue: the value left behind by a failed parse is not specified. The nested context keeps its value and
  hands it to the parent when it returns, where the original writes through a pointer into the parent.
- JsonParser.ParseText: the wording of the error message, which reads on to the end of the line.
- Verifier.TokenVerifier.Verify: doubles as claims, and the overflow of dates beyond 64 bits of nanoseconds.
- Tokens.CreateToken: a clock reading is a non-negative number of nanoseconds that stays within 64 bits a minute later.
- CBase64.Base64Encode: lengths beyond the range of `int`.
- HMAC failure inside OpenSSL: the MAC function always yields a MAC.
- RSA, ECDSA, EdDSA and PSS algorithms, and the trait checks of `jwt.h`.
- The references that the non-const `set_query` accessors hand out, which let a caller change a query later; the model
  replaces the list or an entry in the call itself.
- Move construction and move assignment of `Url`, and `output`, which only prints fields.
- Locks: every operation is one atomic step. `HandleApiRequest` holds its lock throughout, so its requests are serial.
- `AddUser` and `DeleteUser`, which are empty, and `GetUserData` by number, which has no body.
- The login body is parsed by Boost.JSON, and the responses are written by it: the model keeps their contents, not their text.
- `picojson::operator==` and `null_parse_context`, which nothing here uses.
- `main.cpp`, `httpserver.cpp`, `webserver.cpp` and `wxUI`: sockets, threads, images and user interface.
