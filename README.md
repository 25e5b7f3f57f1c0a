# String validators, modelled in Dafny

This project models `src/validators.ts`, a library of 25 type guards.
Each guard, such as `isSlug` or `isIPv4`, checks one string against a fixed
regular expression. A few guards add more: the ISBN guard tries two patterns,
the latitude and longitude guards also compare the parsed number against a
range, and the gender guard looks the value up in a list of four names.

Each regular expression becomes a Dafny predicate in `Validators.dfy`. The
predicate follows the pattern's structure:

- an anchored sequence becomes a conjunction over slices;
- a `+` or `*` group becomes an existential split point;
- a `{n}` repetition becomes recursion on `n`.

Regex semantics are kept where they matter:

- `\d` is only `0-9`.
- `\s` is the ECMAScript WhiteSpace plus LineTerminator set, including
  U+00A0, U+FEFF, U+1680, U+2000–U+200A, U+2028/2029, U+202F, U+205F and
  U+3000.
- `.` matches anything except a line terminator.
- `isIPv6` has no anchors, so it tests for a *substring*.

The other files prove properties of those predicates. Most validators get
an independent characterisation over characters or numbers, proved in both
directions. Where a format has a natural inverse there is also a formatter
and a parser with round-trip lemmas. Concrete examples pin each quirk of the
code.

| file | contents |
|---|---|
| `CharClasses.dfy` | character classes, `All`, `Run`, `Count` and their algebra |
| `Decimal.dfy` | decimal numerals: `Value`, fixed-width `Digits`, canonical `Numeral`, exact `FractionValue` |
| `Options.dfy` | `Option` |
| `Validators.dfy` | the 25 validators and the patterns they test |
| `IdentityProps.dfy` | slug, Twitter handle, username, password, country code, gender |
| `ContactProps.dfy` | e-mail, URL, phone number |
| `FormatProps.dfy` | date, SSN, postal code, date-time, currency, credit card |
| `NetworkProps.dfy` | IPv4, IPv6, MAC address |
| `EncodingProps.dfy` | hex colour, hexadecimal, base64, UUID |
| `CoordinateProps.dfy` | latitude, longitude |
| `IsbnProps.dfy` | ISBN-10, ISBN-13 |
| `EmptyInput.dfy` | which validators accept the empty string |

`isBase64("")` is true, because the pattern's repeated group and its
optional group may both be empty; every other guard rejects `""`.
`EmptyInput.OnlyBase64AcceptsEmpty` proves both halves.

## Model

| member | source | states |
|---|---|---|
| `IdentityProps.SlugCharacterization` | src/validators.ts:68-72 | a slug is a non-empty string of `a-z`, `0-9` and `-` that neither starts nor ends with `-` and never has two `-` in a row, in both directions |
| `IdentityProps.SlugTailShape` | src/validators.ts:68 | the repeated `-segment` tail matches exactly the strings that are empty or start with `-`, have no `--` and do not end with `-` |
| `IdentityProps.SlugTailForward` | src/validators.ts:68 | every matched `-segment` tail is empty or starts with `-`, has no `--` and does not end with `-` |
| `IdentityProps.SlugTailBackward` | src/validators.ts:68 | every string of that shape is matched by the repeated `-segment` tail |
| `IdentityProps.SlugExample` | src/validators.ts:68-72 | `hello-world-123` is a slug |
| `IdentityProps.SlugRejections` | src/validators.ts:68-72 | upper case, a leading or trailing `-` and `""` are refused |
| `IdentityProps.SlugRejectsDoubleDash` | src/validators.ts:68-72 | two `-` in a row are refused |
| `IdentityProps.TwitterHandleOfName` | src/validators.ts:67 | `@` followed by `u` is a handle iff `u` has 1 to 15 word characters |
| `IdentityProps.UsernameHandle` | src/validators.ts:57 | a username of at most 15 characters becomes a handle with an `@` in front, and a handle of 4 or more characters gives a username without its `@` |
| `IdentityProps.UsernameExamples` | src/validators.ts:57 | 3 and 16 characters are accepted and 2 and 17 refused, `-` is refused, and a handle needs its `@` and accepts a 15-character body but not a 16-character one |
| `IdentityProps.PasswordCharacterization` | src/validators.ts:58 | a password is 8 or more ASCII letters and digits holding at least one letter and at least one digit, in both directions |
| `IdentityProps.PasswordIsUsername` | src/validators.ts:57-58 | a password of at most 16 characters is also a username |
| `IdentityProps.PasswordNeedsBoth` | src/validators.ts:58 | a string of letters only, or of digits only, is never a password |
| `IdentityProps.PasswordExample` | src/validators.ts:58 | `abc12345` is accepted |
| `IdentityProps.PasswordRejectsLetters` | src/validators.ts:58 | eight letters are refused |
| `IdentityProps.PasswordRejectsDigits` | src/validators.ts:58 | eight digits are refused |
| `IdentityProps.PasswordRejectsShort` | src/validators.ts:58 | seven characters are refused even with a letter and a digit |
| `IdentityProps.CountryCodeOfUpper` | src/validators.ts:56 | an upper-cased string is a country code iff it is two ASCII letters, and a country code is its own upper case |
| `IdentityProps.CountryCodeExamples` | src/validators.ts:56 | `US` is a code; `us`, `USA` and `U` are not |
| `IdentityProps.GenderName` | src/types.ts:16 | every value of the gender type names an accepted string |
| `IdentityProps.ParseGender` | src/validators.ts:118-120 | parsing succeeds exactly on accepted strings and then gives back the value naming that string |
| `IdentityProps.GenderRoundTrip` | src/types.ts:16 | parsing the name of a gender value gives that value |
| `IdentityProps.GenderCharacterization` | src/validators.ts:118-120 | a string is accepted iff it is the name of one of the four gender values |
| `IdentityProps.GenderExamples` | src/validators.ts:119 | the lookup is exact: `Female`, `nonbinary` and `""` are refused |
| `ContactProps.EmailPartIff` | src/validators.ts:31 | one part of an address is a non-empty run without white space or `@` |
| `ContactProps.EmailCharacterization` | src/validators.ts:31 | an address is accepted iff it has exactly one `@`, no white space, a non-empty local part, and a domain with a `.` that is neither first nor last |
| `ContactProps.EmailRejectsSpace` | src/validators.ts:31 | a white-space character at any index, the last one included, makes a string no address |
| `ContactProps.EmailRejects` | src/validators.ts:31 | two `@` at different indices, or a white-space character before another character, make a string no address |
| `ContactProps.EmailNeedsOneAt` | src/validators.ts:31 | a string whose count of `@` is not exactly one is refused |
| `ContactProps.EmailNeedsAt` | src/validators.ts:31 | a string without `@` is refused |
| `ContactProps.EmailExamples` | src/validators.ts:31 | `user@example.com` is accepted |
| `ContactProps.EmailWithoutAt` | src/validators.ts:31 | `example.com` is refused |
| `ContactProps.EmailWithTwoAts` | src/validators.ts:31 | `user@@example.com` is refused |
| `ContactProps.EmailWithSpace` | src/validators.ts:31 | a space in the local part is refused |
| `ContactProps.SchemesExclusive` | src/validators.ts:32 | no string starts with both `http://` and `https://` |
| `ContactProps.UrlWhiteSpace` | src/validators.ts:32 | an accepted URL starts with one of the two schemes, has at least two characters after `://`, and holds no white space anywhere except possibly the second character after `://`, which still cannot be a line terminator |
| `ContactProps.UrlExtension` | src/validators.ts:32 | appending characters that are not white space to an accepted URL keeps it accepted |
| `ContactProps.UrlExamples` | src/validators.ts:32 | `https://a.io/x?q` is accepted |
| `ContactProps.UrlSpaceSecond` | src/validators.ts:32 | `http://a b` is accepted: a space may be the second character after the scheme |
| `ContactProps.UrlTooShort` | src/validators.ts:32 | one character after `://` is not enough |
| `ContactProps.UrlOtherScheme` | src/validators.ts:32 | `ftp://` is refused |
| `ContactProps.UrlSlashAfterScheme` | src/validators.ts:32 | the first character after `://` cannot be `/` |
| `ContactProps.UrlInnerSpace` | src/validators.ts:32 | a space later in the URL is refused |
| `ContactProps.PhoneDigitsNumeral` | src/validators.ts:33 | the digits of a phone number are the canonical numeral of a value from 10 up to 10^15 |
| `ContactProps.NumeralPhoneDigits` | src/validators.ts:33 | the numeral of every such value is accepted as the digits of a phone number |
| `ContactProps.PhoneDigitsOfRun` | src/validators.ts:33 | 2 to 15 digits not starting with `0` are accepted as the digits of a phone number |
| `ContactProps.PhoneNumberFormats` | src/validators.ts:33 | every accepted phone number is the numeral of some 10 ≤ n < 10^15, with or without `+` |
| `ContactProps.NumeralPhoneNumber` | src/validators.ts:33 | the numeral of every such value is accepted, with and without `+` |
| `ContactProps.PhoneNumberCharacterization` | src/validators.ts:33 | a phone number is the numeral of some 10 ≤ n < 10^15, optionally with `+` in front, in both directions |
| `ContactProps.PhoneExamples` | src/validators.ts:33 | the shortest, with two digits, is accepted; a leading zero, a single digit and 16 digits are refused |
| `FormatProps.RunIsDigits` | src/validators.ts:34 | a run of n digits reads as a value below 10^n that formats back to the same run |
| `FormatProps.ParseDate` | src/validators.ts:34 | an accepted date reads as a year below 10000 and a month and day below 100 |
| `FormatProps.FormatDateParses` | src/validators.ts:34 | every zero-padded year-month-day is accepted and parses back to its fields |
| `FormatProps.DateStringFormats` | src/validators.ts:34 | every accepted date is the zero-padded form of the fields it parses to |
| `FormatProps.DateExamples` | src/validators.ts:34 | only the shape is checked, so `2023-99-99` is accepted; an unpadded month and `/` separators are refused |
| `FormatProps.ParseSSN` | src/validators.ts:51 | an accepted SSN reads as fields below 1000, 100 and 10000 |
| `FormatProps.FormatSSNParses` | src/validators.ts:51 | every zero-padded area-group-serial is accepted and parses back to its fields |
| `FormatProps.SSNFormats` | src/validators.ts:51 | every accepted SSN is the zero-padded form of its fields |
| `FormatProps.SSNExamples` | src/validators.ts:51 | dashes are required, in the 3-2-4 positions |
| `FormatProps.FormatZipAccepted` | src/validators.ts:41 | every zero-padded five-digit code, with or without a four-digit extension, is accepted |
| `FormatProps.PostalCodeFormats` | src/validators.ts:41 | every accepted postal code is the zero-padded form of the code and extension it holds |
| `FormatProps.PostalCodeCharacterization` | src/validators.ts:41 | a postal code is a five-digit code, optionally followed by a dash and a four-digit extension, in both directions |
| `FormatProps.PostalCodeExamples` | src/validators.ts:41 | the lengths 5 and 10 are accepted; 4, 6 and a three-digit extension are not |
| `FormatProps.DateTimeCompose` | src/validators.ts:53-54 | a date, `T`, a clock time, an optional fraction of up to three digits and a zone make an accepted date-time |
| `FormatProps.DateTimeDecompose` | src/validators.ts:53-54 | every accepted date-time is a date, `T`, a clock time, a fraction of at most three digits and a zone, and the lemma returns those parts |
| `FormatProps.DateTimeCharacterization` | src/validators.ts:53-54 | a string is an accepted date-time iff it is such a composition, in both directions |
| `FormatProps.DateTimeShape` | src/validators.ts:53-54 | an accepted date-time begins with an accepted date, and its length is one of the eight the optional parts allow |
| `FormatProps.DateTimeExamples` | src/validators.ts:53-54 | the `Z` form is accepted |
| `FormatProps.DateTimeWithFraction` | src/validators.ts:53-54 | a three-digit fraction with a numeric offset is accepted |
| `FormatProps.DateTimeRejections` | src/validators.ts:53-54 | four fraction digits, a missing zone and a space for `T` are refused |
| `FormatProps.AmountCharacterization` | src/validators.ts:49 | the amount is digits only, or digits, `.` and exactly two more digits, in both directions |
| `FormatProps.AmountNoDollar` | src/validators.ts:49 | an amount cannot start with `$` |
| `FormatProps.DollarSign` | src/validators.ts:49 | a leading `$` may be added to any currency string that does not already start with one |
| `FormatProps.CurrencyOfAmount` | src/validators.ts:49 | every whole amount, and every amount with two-digit cents, with or without `$`, is accepted |
| `FormatProps.CurrencyExamples` | src/validators.ts:49 | leading zeros are accepted |
| `FormatProps.CurrencyRejections` | src/validators.ts:49 | one cents digit, a bare `$` and a thousands comma are refused |
| `FormatProps.IssuerUnique` | src/validators.ts:39 | the six card alternatives never overlap: a number matches at most one issuer |
| `FormatProps.IssuerOf` | src/validators.ts:154-156 | an issuer is found exactly for accepted numbers, and the number matches that issuer's pattern |
| `FormatProps.CreditCardDigits` | src/validators.ts:39 | an accepted number is 13 to 16 digits starting with 3 to 7 |
| `FormatProps.VisaExamples` | src/validators.ts:39 | 16- and 13-digit numbers starting with `4` are Visa |
| `FormatProps.VisaWithoutLuhn` | src/validators.ts:39 | a number failing the Luhn check is still accepted as Visa |
| `FormatProps.OtherIssuerExamples` | src/validators.ts:39 | Amex and Discover numbers are classified |
| `FormatProps.CreditCardRejections` | src/validators.ts:39 | a 14-digit Visa number and a `56` prefix are refused |
| `NetworkProps.OctetCharacterization` | src/validators.ts:46 | one part of an IPv4 address is 1 to 3 digits whose value is at most 255, leading zeros allowed, in both directions |
| `NetworkProps.OctetNoDot` | src/validators.ts:46 | a part holds no `.` |
| `NetworkProps.DottedSplit` | src/validators.ts:46 | the first `.` is the only place the first part can end |
| `NetworkProps.JoinOfDotted` | src/validators.ts:46 | every accepted dotted string is some list of parts joined by `.` |
| `NetworkProps.DottedOfJoin` | src/validators.ts:46 | every list of valid parts joined by `.` is accepted |
| `NetworkProps.DottedOctetsJoin` | src/validators.ts:46 | n dotted parts are exactly the joins of n valid parts |
| `NetworkProps.IPv4Characterization` | src/validators.ts:45-46 | an IPv4 address is exactly four parts, each 1 to 3 digits of value at most 255, joined by `.` |
| `NetworkProps.NumeralOctet` | src/validators.ts:46 | the numeral of every value up to 255 is a valid part |
| `NetworkProps.IPv4OfParts` | src/validators.ts:46 | any four valid parts joined by `.` are accepted |
| `NetworkProps.FormatIPv4Accepted` | src/validators.ts:138-140 | every dotted quad of values up to 255 is accepted |
| `NetworkProps.IPv4Example` | src/validators.ts:46 | `192.168.1.1` is accepted |
| `NetworkProps.IPv4LeadingZeros` | src/validators.ts:46 | `001.002.003.004` is accepted |
| `NetworkProps.IPv4Rejects256` | src/validators.ts:46 | a part of value 256 is refused |
| `NetworkProps.DottedOctetsDots` | src/validators.ts:46 | n parts hold exactly n - 1 dots |
| `NetworkProps.IPv4RejectsThreeParts` | src/validators.ts:46 | three parts are refused |
| `NetworkProps.IPv4RejectsFiveParts` | src/validators.ts:46 | five parts are refused |
| `NetworkProps.GroupsWithinSubstring` | src/validators.ts:47 | an unanchored match survives any text added before and after |
| `NetworkProps.IPv6Substring` | src/validators.ts:142-144 | if `s` is accepted as IPv6 then so is `p + s + q`, whatever `p` and `q` are |
| `NetworkProps.ColonGroupsBounds` | src/validators.ts:47 | n colon-terminated groups and a tail hold at least n colons and take 2n+1 to 5n+4 characters |
| `NetworkProps.IPv6Necessary` | src/validators.ts:47 | an accepted string holds at least 7 colons and 15 characters |
| `NetworkProps.ColonGroupsOfTerminated` | src/validators.ts:47 | any n groups of 1 to 4 hex digits, each followed by `:`, then a group or a `:`, match |
| `NetworkProps.IPv6OfGroups` | src/validators.ts:47 | seven such groups and a tail, inside any text, are accepted |
| `NetworkProps.IPv6OfSeven` | src/validators.ts:47 | seven hex groups written out with their colons, then a group or a `:`, inside any text, are accepted |
| `NetworkProps.IPv6Examples` | src/validators.ts:47 | the full eight-group form is accepted |
| `NetworkProps.IPv6DoubleColonEnd` | src/validators.ts:47 | seven groups followed by `::` are accepted |
| `NetworkProps.IPv6InsideText` | src/validators.ts:47 | an address embedded in other text is accepted |
| `NetworkProps.IPv6Rejections` | src/validators.ts:47 | the compressed forms `::1` and `2001:db8::1` are refused, and so are seven groups ending in a single `:` |
| `NetworkProps.MacGroupsPositions` | src/validators.ts:59 | n separated pairs and a last pair are exactly the strings of length 3n+2 with hex digits at the pair positions and `:` or `-` at the others |
| `NetworkProps.MacCharacterization` | src/validators.ts:59 | a MAC address is 17 characters with hex digits everywhere except positions 2, 5, 8, 11 and 14, which are `:` or `-` |
| `NetworkProps.MacCons` | src/validators.ts:59 | two hex digits and a separator in front of n separated pairs make n + 1 |
| `NetworkProps.MacExample` | src/validators.ts:59 | `00:1A:2B:3C:4D:5E` is accepted |
| `NetworkProps.MacDashExample` | src/validators.ts:59 | dashes and lower-case digits are accepted |
| `NetworkProps.MacMixedSeparators` | src/validators.ts:59 | the separators need not agree with each other |
| `NetworkProps.MacRejections` | src/validators.ts:59 | five pairs, dotted groups of four and a trailing separator are refused |
| `NetworkProps.MacRejectsNonHex` | src/validators.ts:59 | a non-hex letter is refused |
| `EncodingProps.HexValue` | src/validators.ts:43 | a hex digit is worth less than 16 |
| `EncodingProps.HexChar` | src/validators.ts:43 | every value below 16 has a hex digit of that value |
| `EncodingProps.HexadecimalIsBase64` | src/validators.ts:64-66 | a hexadecimal string whose length is a multiple of 4 is also valid base64 |
| `EncodingProps.FormatHexColorParses` | src/validators.ts:43 | every RGB triple formats to an accepted colour that parses back to the triple |
| `EncodingProps.ParseHexColorFormats` | src/validators.ts:43 | an accepted colour in upper case is the formatting of the triple it parses to |
| `EncodingProps.HexColorCharacterization` | src/validators.ts:43 | a hex colour is `#` followed by a hexadecimal string of 6 characters |
| `EncodingProps.HexColorExamples` | src/validators.ts:43 | both cases are accepted; three digits, no `#` and non-hex letters are refused |
| `EncodingProps.Base64Characterization` | src/validators.ts:65-66 | base64 is a multiple of 4 characters, all from the alphabet except that the last character may be `=` and the last two may be `==`, in both directions |
| `EncodingProps.Base64Length` | src/validators.ts:65-66 | accepted base64 has a length divisible by 4 |
| `EncodingProps.Base64Digit` | src/validators.ts:66 | every 6-bit value has a character of the alphabet |
| `EncodingProps.EncodeGroup` | src/validators.ts:65-66 | three bytes encode to four characters of the alphabet |
| `EncodingProps.EncodeLast` | src/validators.ts:65-66 | one or two final bytes encode to a padded group the pattern accepts |
| `EncodingProps.Encode` | src/validators.ts:65-66 | the standard padded encoding of every byte string has length 4⌈n/3⌉ and is accepted |
| `EncodingProps.Base64Examples` | src/validators.ts:78-80 | the empty string is accepted, and so are both padded forms |
| `EncodingProps.Base64LongerExample` | src/validators.ts:66 | a full group followed by a padded group is accepted |
| `EncodingProps.Base64Rejections` | src/validators.ts:66 | a length that is not a multiple of 4, all padding and padding followed by a letter are refused |
| `EncodingProps.UuidFromHexAccepted` | src/validators.ts:36 | every 32 hex digits laid out in groups is accepted, and the digits read back |
| `EncodingProps.UuidHexGroups` | src/validators.ts:36 | every accepted UUID is its hex digits laid out in groups; no version or variant digit is checked |
| `EncodingProps.UuidOfGroups` | src/validators.ts:36 | any hex groups of 8, 4, 4, 4 and 12 digits joined by `-` are accepted |
| `EncodingProps.UuidExample` | src/validators.ts:36 | a standard UUID is accepted |
| `EncodingProps.UuidRejectsUndashed` | src/validators.ts:36 | the 32 digits without dashes are refused |
| `EncodingProps.UuidRejectsNonHex` | src/validators.ts:36 | a `g` among the digits is refused |
| `CoordinateProps.FractionZero` | src/validators.ts:60-61 | the fraction reads as zero exactly when it is absent or all zeros |
| `CoordinateProps.CoordinateInRange` | src/validators.ts:90-104 | the value lies in [-b, b] iff the whole part is below b, or equals b with a zero fraction |
| `CoordinateProps.LatitudeCharacterization` | src/validators.ts:90-96 | a latitude is an optional `-`, 1 or 2 digits and an optional fraction, with whole part below 90, or exactly 90 with a zero fraction |
| `CoordinateProps.LongitudeCharacterization` | src/validators.ts:98-104 | a longitude is the same with up to 3 whole digits and the bound 180 |
| `CoordinateProps.LatitudeIsLongitude` | src/validators.ts:90-104 | every latitude is a longitude |
| `CoordinateProps.LatitudeBoundary` | src/validators.ts:90-96 | `90` and `-90` are accepted |
| `CoordinateProps.LatitudeBoundaryZeros` | src/validators.ts:90-96 | `90.000` is accepted |
| `CoordinateProps.LatitudeAboveBoundary` | src/validators.ts:90-96 | `90.1` is refused |
| `CoordinateProps.LatitudeBelowBoundary` | src/validators.ts:90-96 | `-91` is refused |
| `CoordinateProps.LatitudeThreeDigits` | src/validators.ts:60 | three whole digits are refused even when the value is small (`010`) |
| `CoordinateProps.LongitudeBoundary` | src/validators.ts:98-104 | `180` and `-180` are accepted |
| `CoordinateProps.LongitudeAboveBoundary` | src/validators.ts:98-104 | `180.1` and `181` are refused |
| `CoordinateProps.CoordinateNeedsDigits` | src/validators.ts:60 | no digit before the point, no digit after it, and `""` are refused |
| `CoordinateProps.CoordinateRejectsExponent` | src/validators.ts:60 | an exponent is refused |
| `IsbnProps.UnitsCharacterization` | src/validators.ts:62-63 | n units are exactly the strings starting with a digit, made of digits and the separators space, vertical bar and `-`, with every separator right after a digit, and holding n digits |
| `IsbnProps.Isbn13Characterization` | src/validators.ts:63 | an ISBN-13 is such a string with 13 digits; a separator may end it, and no check digit is verified |
| `IsbnProps.Isbn10Characterization` | src/validators.ts:62 | an ISBN-10 is such a string with 9 digits followed by a digit or `X` |
| `IsbnProps.IsbnEitherForm` | src/validators.ts:86-88 | the guard accepts either form; an ISBN-10 takes 10 to 19 characters and an ISBN-13 13 to 26 |
| `IsbnProps.UnitsLength` | src/validators.ts:62-63 | n units take n to 2n characters |
| `IsbnProps.UnitsOfDigits` | src/validators.ts:62-63 | a run of n digits is n units |
| `IsbnProps.UnitsOfGroup` | src/validators.ts:62-63 | a group of digits followed by one separator is as many units as it has digits |
| `IsbnProps.UnitsConcat` | src/validators.ts:62-63 | units concatenate |
| `IsbnProps.DigitCountOfDigits` | src/validators.ts:62-63 | in a run of digits every character is counted |
| `IsbnProps.TooFewDigits` | src/validators.ts:62-63 | a string with the wrong number of digits is not n units |
| `IsbnProps.DoubleSeparator` | src/validators.ts:62-63 | two separators in a row are never units |
| `IsbnProps.LeadingSeparator` | src/validators.ts:62-63 | a leading separator is never units |
| `IsbnProps.UnitsOfTerminated` | src/validators.ts:62-63 | groups of digits each followed by the same separator are as many units as their digits |
| `IsbnProps.Isbn10OfGroups` | src/validators.ts:62 | such groups with 9 digits in all, then a digit or `X`, are an ISBN-10 |
| `IsbnProps.Isbn13OfGroups` | src/validators.ts:63 | such groups followed by digits, 13 in all, are an ISBN-13 |
| `IsbnProps.Isbn10OfDigits` | src/validators.ts:62 | nine digits and a digit or `X` are an ISBN-10 |
| `IsbnProps.Isbn13OfDigits` | src/validators.ts:63 | thirteen digits are an ISBN-13 |
| `IsbnProps.DigitsIsbn` | src/validators.ts:86-88 | a string of digits alone is accepted iff it has 10 or 13 of them |
| `IsbnProps.DigitsNotIsbn` | src/validators.ts:86-88 | digits alone of any other count are refused |
| `IsbnProps.NotIsbnWithDoubleSeparator` | src/validators.ts:86-88 | two separators in a row, anywhere including the end, make neither form |
| `IsbnProps.NotIsbnWithLeadingSeparator` | src/validators.ts:86-88 | a leading separator makes neither form, the one-character string included |
| `IsbnProps.Isbn10Example` | src/validators.ts:62 | `0306406152` is an ISBN-10 |
| `IsbnProps.Isbn13Example` | src/validators.ts:63 | `9780306406157` is an ISBN-13 |
| `IsbnProps.IsbnCheckX` | src/validators.ts:62 | a final `X` is accepted in an ISBN-10 |
| `IsbnProps.IsbnWithHyphens` | src/validators.ts:62 | a hyphenated ISBN-10 is accepted |
| `IsbnProps.IsbnWithSpaces` | src/validators.ts:63 | a space-separated ISBN-13 is accepted |
| `IsbnProps.IsbnWithBars` | src/validators.ts:62 | the vertical bar is accepted as a separator |
| `IsbnProps.IsbnTrailingSeparator` | src/validators.ts:63 | an ISBN-13 may end with a separator |
| `IsbnProps.IsbnRejectsDoubleSeparator` | src/validators.ts:86-88 | `0--306406152` is refused |
| `IsbnProps.IsbnRejectsLeadingSeparator` | src/validators.ts:86-88 | a leading `-` is refused |
| `IsbnProps.IsbnRejectsTwelveDigits` | src/validators.ts:86-88 | twelve digits are neither form |
| `EmptyInput.OnlyBase64AcceptsEmpty` | src/validators.ts:31-176 | the base64 pattern accepts `""` and each of the other 24 validators rejects it |
| `Decimal.DigitChar` | src/validators.ts:33 | every digit value has a digit character of that value |
| `Decimal.Digits` | src/validators.ts:34 | a value below 10^w has a w-digit zero-padded form that reads back as the value |
| `Decimal.DigitsOfValue` | src/validators.ts:34 | a run of digits is the zero-padded form of its own value |
| `Decimal.SplitLast` | src/validators.ts:33-34 | the last digit of a run is its value mod 10 and the rest is worth its value div 10 |
| `Decimal.Numeral` | src/validators.ts:33 | the canonical numeral of a value has no leading zero and reads back as the value |
| `Decimal.NumeralOfValue` | src/validators.ts:33 | a run of digits without a leading zero is the numeral of its value |
| `Decimal.FractionValue` | src/validators.ts:60-61 | the digits after a point are worth at least 0 and less than 1, and exactly 0 iff they are all zeros |
| `Decimal.LeadingDigitBound` | src/validators.ts:33 | w digits without a leading zero are worth at least 10^(w-1) |

## Left out

- `parseFloat` rounding: the range check in `isLatitude` and `isLongitude` uses the exact rational value of the numeral. A fraction with more digits than a double can hold could round onto or off the boundary in the code; the model does not capture that.
- Strings are sequences of Unicode scalar values; JavaScript regexes without the `u` flag work on UTF-16 code units. Only `isURL` can tell them apart: a character outside the Basic Multilingual Plane is two code units, so it can fill both the first and the second position after `://`. The model counts it as one character.
- `isGender` accepts any JavaScript value and looks the value up with `includes`; the model only considers strings, since `includes` never finds a non-string among four strings.
- The regular-expression engine itself, and the matching of patterns in general: each pattern is translated by hand into a predicate over the string.
- The TypeScript brand types of `src/types.ts` (`Email`, `Slug` and so on) are not modelled as Dafny types. Each validator predicate stands for its brand, and the `Gender` union is `IdentityProps.GenderValue`.
- Decoding base64 is not modelled; `EncodingProps.Encode` covers the other direction.
- Idempotence and "nothing else changes" are trivial here: every validator is a pure function of its argument.
- `EncodingProps.ParseHexColorFormats`: the round trip is stated for upper-case input only, because the formatter writes upper-case digits; a lower-case colour parses to the same triple but formats differently.
