# IPv6 subnet calculator, modelled in Dafny

`IPv6Calculator` takes a CIDR query such as `2001:db8::1/64`. It returns the
first and last address of the block and the number of addresses in it. One
call of `calc($query)` runs five steps, and every failed check records an
error code:

1. `isValidQuery` checks the query and splits it at `/`.
2. `isValidAddress` and `splitAddressString` check the address length and its
   number of colon-separated pieces.
3. `expandSegments` and `normalizeSegments` rewrite the pieces into eight
   four-character groups. This is the `::` shorthand of section 2.2 of
   RFC 4291, implemented loosely.
4. `isValidPrefix` checks the prefix length.
5. `calcSubnet` fills `network_range` with:
   - `min`: the address with its host bits cleared;
   - `max`: the address with its host bits set;
   - `hosts`: 2^(128 − p), written with thousands separators.

The model has one module per concern:

- `Outcomes`: `Option`, `Flow` (a value or a thrown exception) and `Checked`
  (a valid value or an error code).
- `Positional`: powers and the value of a digit sequence.
- `PhpStrings`: the PHP string functions the calculator relies on:
  - `empty` (true for `""` and `"0"`);
  - `explode` and `implode`;
  - `str_pad`.
- `BaseConvert`: `base_convert`, `number_format` and decimal `is_numeric`.
- `Segments`: the expansion and padding of address pieces.
- `Subnet`: the mask expression of `calcSubnet` and the boundary addresses.
- `ErrorCodes`: the code constants, `getErrorMessage` and `getErrorMessages`.
- `Calculation`: the whole of `calc` as a function from the query to the
  returned value and the calculator's state afterwards.
- `Calculator`: the class `IPv6Calculator`. Its five properties are fields.
  Its methods update them in place with the source's loops, and each method is
  proved to follow the `Calculation` functions.
- `WorkedExample`: the query `2001:db8::1/64`, followed through `calc`.

The model reproduces the following behaviour of the code:

- `empty` is true for `"0"`, so:
  - the query `"0"` records `QUERY_EMPTY`;
  - the prefix `"0"` records `PREFIX_EMPTY`, not `PREFIX_RANGE`;
  - a `"0"` piece in a short address is expanded like the empty piece of `::`.
- A query of blanks is not empty to PHP. A query with an empty address or an
  empty prefix passes the query check and fails at the next check.
- Every empty piece is expanded, so an address that starts or ends with `::`
  has two empty pieces. With fewer than eight pieces, `expandSegments` then
  throws. For example `::1` throws instead of being accepted.
- With prefix 128 the boundary index is 8:
  - `segments[8]` does not exist and reads as an empty string;
  - `min` and `max` each get a ninth group, `0000` and `ffff`;
  - they are not equal to the address.
- `calc` returns `QUERY_INVALID` for every failed query check. That code is not
  added after the specific code the check recorded.
- Groups longer than four characters, and characters that are not hex
  digits, pass the checks. `base_convert` ignores characters that are not
  digits of its base, and the model does the same. The model reads the
  remaining digits exactly, while PHP loses precision on very long groups
  (see "Left out").
- With a group of five or more hex digits, the range `calcSubnet` stores need
  not contain the address. `$seg_bin` then has more than sixteen binary
  digits, and only its leading bits are kept. For `12345:1:2:3:4:5:6:7/4` the
  stored first group is `12345`, while `min` and `max` start with `9000` and
  `9fff`. The range lemmas below therefore speak of groups worth less than
  2^16.
- `hosts` is formatted by `number_format`, with commas.

## Model

| member | source | states |
|---|---|---|
| Calculator.IPv6Calculator.constructor | IPv6Calculator.php:27-31 | a new calculator has no errors, no groups, no ip or prefix and an empty network range |
| Calculator.IPv6Calculator.Reset | IPv6Calculator.php:62-70 | after `reset` every property is back to its initial value |
| Calculator.IPv6Calculator.Calc | IPv6Calculator.php:38-55 | the returned value (or exception) and the whole new state are those of `Calculation.Calculate`: validators in order, stopping at the first failure |
| Calculator.IPv6Calculator.GetErrorMessages | IPv6Calculator.php:78-86 | the loop builds exactly `ErrorReport(errors)`: every message followed by an end of line, in order, or the exception of the first code without a message |
| Calculator.IPv6Calculator.IsValidQuery | IPv6Calculator.php:134-154 | returns true exactly when the query check passes; on failure only the specific code is appended to `errors`; on success `ip` and `prefix` are the two parts and nothing else changes |
| Calculator.IPv6Calculator.IsValidAddress | IPv6Calculator.php:162-182 | an exception leaves the state as it was; an invalid address appends its code; a valid one stores the eight groups and sets `ip` to them joined by colons |
| Calculator.IPv6Calculator.ValidateAddressFormat | IPv6Calculator.php:191-203 | true with the groups stored, false with `ADDRESS_SEGMENTS_COUNT` recorded, or the expansion exception, as `SplitStep` decides |
| Calculator.IPv6Calculator.SplitAddressString | IPv6Calculator.php:269-283 | more than eight pieces record `ADDRESS_SEGMENTS_COUNT` and give no groups; otherwise the result is the normalized pieces or the expansion exception |
| Calculator.IPv6Calculator.NormalizeSegments | IPv6Calculator.php:291-302 | the padding loop yields `Normalize(segs)`: the expanded list with every group not of length four passed through `str_pad`, which pads shorter ones to four |
| Calculator.IPv6Calculator.ExpandSegments | IPv6Calculator.php:311-339 | the nested loops yield `Expand(segs)`: eight pieces unchanged, otherwise every placeholder replaced by 9 − c zero groups, throwing unless the result has eight groups |
| Calculator.IPv6Calculator.IsValidPrefix | IPv6Calculator.php:210-224 | returns true exactly when the prefix is a numeral from 1 to 128; on failure only the specific code is appended |
| Calculator.IPv6Calculator.CalcSubnet | IPv6Calculator.php:232-261 | a non-numeric prefix throws and changes nothing; otherwise only `network_range` changes, to `Range(segments, p)` |
| Calculator.FillBounds | IPv6Calculator.php:246-254 | the boundary group replaced (or appended at index 8), and every later group set to `0000` in the minimum and `ffff` in the maximum |
| Calculator.RangeOfBounds | IPv6Calculator.php:237-258 | the groups built in place, joined, with the host count, form the range of the specification function |
| Calculation.QueryStep | IPv6Calculator.php:134-154 | a failed query check gives `QUERY_EMPTY`, `QUERY_TOO_LONG` or `QUERY_INVALID` |
| Calculation.QueryStepIff | IPv6Calculator.php:136-148 | the query passes exactly when it is not empty to PHP, has at most 43 characters and holds exactly one `/` |
| Calculation.QueryStepParts | IPv6Calculator.php:144-151 | an accepted query is the address, `/` and the prefix, and neither part contains `/` |
| Calculation.QueryStepOfParts | IPv6Calculator.php:144-151 | conversely, an address and a prefix without `/` that fit the limit are split back into themselves |
| Calculation.EmptyQueries | IPv6Calculator.php:136-138 | `calc("")` and `calc("0")` record `QUERY_EMPTY` and return `QUERY_INVALID` |
| Calculation.QueryWithoutPrefix | IPv6Calculator.php:144-147 | a query without `/` records `QUERY_INVALID` and returns it |
| Calculation.AddressStep | IPv6Calculator.php:162-182 | accepted addresses give eight groups of at least four characters; failures give `ADDRESS_EMPTY`, `ADDRESS_LONG_TOO` or `ADDRESS_SEGMENTS_COUNT`; the only exception is the expansion failure |
| Calculation.SplitStep | IPv6Calculator.php:269-283 | more than eight pieces give `ADDRESS_SEGMENTS_COUNT`; otherwise eight groups of at least four characters or the expansion exception |
| Calculation.AddressStepFullForm | IPv6Calculator.php:162-182 | a fully written address of eight four-character groups is accepted and stored unchanged |
| Calculation.AddressStepStable | IPv6Calculator.php:176-177 | when every stored group has exactly four characters, the stored `ip` (groups joined by colons) is accepted again and gives the same groups; a longer group can push the joined address past 39 characters, as `12345:1:2:3:4:5:6:7` does, and then it gives `ADDRESS_LONG_TOO` |
| Calculation.AddressStepThrows | IPv6Calculator.php:269-283 | an address that passes the length and piece checks throws exactly when its normalization does |
| Calculation.LeadingAddressThrows | IPv6Calculator.php:311-333 | an address of at most 39 characters that starts with `::` and has fewer than eight pieces, such as `::1`, throws; a longer one is refused with `ADDRESS_LONG_TOO` before it is split |
| Calculation.NormalizedHasNoColon | IPv6Calculator.php:291-302 | normalizing colon-free pieces puts no colon into any group |
| Calculation.PrefixStep | IPv6Calculator.php:210-224 | an accepted prefix is a numeral with value from 1 to 128; failures give `PREFIX_EMPTY`, `PREFIX_NOT_NUMERIC` or `PREFIX_RANGE` |
| Calculation.PrefixStepIff | IPv6Calculator.php:210-224 | the prefix passes exactly when it is a numeral from 1 to 128, and `"0"` fails as empty |
| Calculation.Calculate | IPv6Calculator.php:38-55 | a range is stored exactly when `calc` returns true; it returns an error code exactly when at least one code was recorded, and that code is `QUERY_INVALID`, `ADDRESS_INVALID` or `PREFIX_INVALID`; the only exception is the expansion failure |
| Calculation.Range | IPv6Calculator.php:237-258 | for colon-free groups, `min` and `max` split back into the minimum and maximum group lists, and `hosts` reads back as 2^(128 − p) |
| Calculation.CalculateErrors | IPv6Calculator.php:38-55 | after `calc` every recorded code has a message, so `getErrorMessages` never throws; a failure records at least one code and no range; success records none |
| Calculation.CalculateFailureCodes | IPv6Calculator.php:38-55 | a failed query check leaves its own code only; a failed address or prefix check leaves its own code followed by the returned code |
| Calculation.CalculateRange | IPv6Calculator.php:232-261 | on success the address is stored normalized; `min` and `max` split back into the boundary groups; `hosts` reads back as 2^(128 − p) |
| Calculation.RangeGroupsHaveNoColon | IPv6Calculator.php:256-257 | no group of `min` or `max` contains a colon, so `implode` can be undone |
| Segments.PlaceholderCount | IPv6Calculator.php:321 | the count is zero exactly when no piece is `""` or `"0"`, and never exceeds the number of pieces |
| Segments.Expand | IPv6Calculator.php:311-339 | a returned list has eight groups; the only exception is the expansion failure |
| Segments.ExpandEachLength | IPv6Calculator.php:320-329 | each placeholder contributes the number of zero groups and every other piece one group |
| Segments.ExpandEachNoPlaceholder | IPv6Calculator.php:320-329 | when no piece is a placeholder, the pieces pass through unchanged and in order |
| Segments.ExpandSucceedsIff | IPv6Calculator.php:311-333 | with at most eight pieces, expansion succeeds exactly when there are eight pieces or exactly one placeholder |
| Segments.ExpandSingleCompression | IPv6Calculator.php:318-329 | one placeholder between other pieces becomes the zero groups that complete eight, and the other pieces keep their order |
| Segments.ManyPlaceholdersThrow | IPv6Calculator.php:331-333 | two or more placeholders among fewer than eight pieces always throw |
| Segments.LeadingCompressionThrows | IPv6Calculator.php:321-333 | an address that opens with `::` and has fewer than eight pieces throws |
| Segments.TrailingCompressionThrows | IPv6Calculator.php:321-333 | an address that ends with `::` and has fewer than eight pieces throws |
| Segments.Normalize | IPv6Calculator.php:291-302 | a normalized address has eight groups, each of at least four characters |
| Segments.PadGroup | IPv6Calculator.php:296-298 | a padded group has four characters, or its own length when that is more |
| Segments.PadGroupFacts | IPv6Calculator.php:296-297 | padding leaves groups of four or more characters alone, pads shorter ones with zeros to exactly four, is idempotent and keeps the hex value |
| Segments.NormalizeIdempotent | IPv6Calculator.php:291-302 | normalizing a normalized list changes nothing |
| Segments.NormalizeFullAddress | IPv6Calculator.php:291-302 | eight four-character groups are left as they are |
| Segments.NormalizeKeepsCharacters | IPv6Calculator.php:291-302 | normalization brings in no character other than `0` |
| Subnet.BoundaryGroups | IPv6Calculator.php:241-244 | whatever the group text, the minimum and maximum boundary groups are four lower-case hex digits, and the minimum is not above the maximum |
| Subnet.MinGroups | IPv6Calculator.php:237-254 | eight groups (nine for prefix 128); the groups before the boundary are the address's, every group after it is `0000` |
| Subnet.MaxGroups | IPv6Calculator.php:237-254 | eight groups (nine for prefix 128); the groups before the boundary are the address's, every group after it is `ffff` |
| Subnet.Hosts | IPv6Calculator.php:258 | a block holds at least one address |
| Subnet.HostsHalve | IPv6Calculator.php:258 | one more prefix bit halves the number of addresses |
| Subnet.BoundaryGroupsMask | IPv6Calculator.php:241-244 | for a boundary group worth less than 2^16, the string expression of `calcSubnet` computes the group value with its 16 − m low bits cleared (minimum) or set (maximum), as four hex digits |
| Subnet.LeadingBits | IPv6Calculator.php:241-242 | the first m binary digits of the padded group are the group value shifted right by 16 − m |
| Subnet.PaddedPrefixBits | IPv6Calculator.php:243-244 | padding those digits on the right with `0` or `1` gives the cleared or set value |
| Subnet.BinaryOfGroup | IPv6Calculator.php:241 | a 16-bit value written in binary and padded to sixteen digits reads back as itself |
| Subnet.MaskFacts | IPv6Calculator.php:243-244 | cleared ≤ value ≤ set < 2^16, the cleared value has zero low bits, the set value all ones, and the high bits agree |
| Subnet.RangeShape | IPv6Calculator.php:246-254 | for p < 128, `min` and `max` have eight groups; groups before the boundary are copied; groups after it are `0000` in `min` and `ffff` in `max` |
| Subnet.RangeBoundaryGroup | IPv6Calculator.php:238-249 | for p < 128 and a boundary group worth less than 2^16, the boundary group of `min` and of `max` is the group value with its host bits cleared or set |
| Subnet.BoundaryPastLastGroup | IPv6Calculator.php:239-249 | the missing ninth group gives `0000` and `ffff` |
| Subnet.Prefix128AppendsGroup | IPv6Calculator.php:237-254 | with prefix 128, `min` and `max` are the address followed by `0000` and by `ffff`, and there is one host |
| Subnet.MinGroupValues | IPv6Calculator.php:246-254 | for p < 128 and groups all worth less than 2^16, as numbers, the minimum's groups are the address's leading groups, the cleared boundary value and zeros |
| Subnet.MaxGroupValues | IPv6Calculator.php:246-254 | for p < 128 and groups all worth less than 2^16, as numbers, the maximum's groups are the leading groups, the set boundary value and 0xffff |
| Subnet.RangeMinimum | IPv6Calculator.php:237-254 | for p < 128 and groups all worth less than 2^16, the 128-bit value of `min` is the address rounded down to a multiple of 2^(128 − p) |
| Subnet.RangeMaximum | IPv6Calculator.php:237-254 | for p < 128 and groups all worth less than 2^16, the value of `max` is that multiple plus 2^(128 − p) − 1 |
| Subnet.RangeIsAlignedBlock | IPv6Calculator.php:237-258 | for p < 128 and groups all worth less than 2^16, `min` and `max` bound the aligned block of `hosts` addresses, and the address lies between them |
| Subnet.HostsSplit | IPv6Calculator.php:258 | 2^(128 − p) is the free bits of the boundary group times the groups after it |
| ErrorCodes.ErrorMessage | IPv6Calculator.php:103-126 | a message is returned exactly for the thirteen listed codes; any other code throws "Error messages is not defined" |
| ErrorCodes.MessageIsLine | IPv6Calculator.php:105-119 | every message is a non-empty single line |
| ErrorCodes.SubnetUndefinedHasNoMessage | IPv6Calculator.php:16 | `SUBNET_UNDEFINED` is declared but has no message |
| ErrorCodes.ErrorReport | IPv6Calculator.php:78-86 | the report returns exactly when every recorded code has a message; otherwise it throws "Error messages is not defined" |
| ErrorCodes.ErrorReportLines | IPv6Calculator.php:78-86 | the report is produced exactly when every code has a message; split at the end of line, it gives the messages in order and a last empty piece |
| PhpStrings.Split | IPv6Calculator.php:271 | `explode` gives one more piece than there are separators, no piece holds the separator, and `implode` restores the string |
| PhpStrings.IsPhpEmpty | IPv6Calculator.php:136 | `empty` accepts exactly the strings of at most one character whose character, if any, is `0`; PlaceholderCount counts the pieces it accepts |
| PhpStrings.JoinCount | IPv6Calculator.php:177 | `implode` of separator-free parts holds exactly one separator between each two parts |
| PhpStrings.SplitJoin | IPv6Calculator.php:256-257 | `implode` followed by `explode` gives back separator-free pieces |
| PhpStrings.Join | IPv6Calculator.php:256-257 | `implode`; its partners are Split (`implode` of the pieces of `explode` restores the string), SplitJoin (the converse for separator-free parts) and JoinCount |
| PhpStrings.PadLeft | IPv6Calculator.php:297 | `str_pad` on the left never shortens and gives the requested length |
| PhpStrings.PadRight | IPv6Calculator.php:243-244 | `str_pad` on the right never shortens and gives the requested length |
| BaseConvert.ToBase | IPv6Calculator.php:243-244 | `base_convert` writes at least one lower-case digit of the target base, and the first digit is `0` only for zero |
| BaseConvert.ParseToBase | IPv6Calculator.php:241-244 | writing a number in a base and reading it back gives the number |
| BaseConvert.Hex4RoundTrip | IPv6Calculator.php:248-249 | a 16-bit value written as four padded hex digits reads back as itself |
| BaseConvert.Hex4OfParse | IPv6Calculator.php:248-249 | four lower-case hex digits read and written back are unchanged |
| BaseConvert.NumberFormat | IPv6Calculator.php:258 | `base_convert` reading the hosts text in base 10, skipping its commas, gives back the number; NumberFormatGroups fixes the rest of the text |
| BaseConvert.ParseBase | IPv6Calculator.php:241-244 | `base_convert` reads at most one digit per character, so the value of a text in base `b` is below `b` to the power of its length |
| BaseConvert.IsNumeric | IPv6Calculator.php:215 | a string is numeric exactly when it is not empty and reading it in base 10 and writing the value back at the same width gives the string again |
| BaseConvert.NumericValue | IPv6Calculator.php:218 | a numeric prefix written back in decimal at its own width gives the prefix again, leading zeros included |
| BaseConvert.NumberFormatGroups | IPv6Calculator.php:258 | split at its commas, the hosts text is a first group of one to three decimal digits, then groups of exactly three; every group is decimal digits; the first digit is `0` only for zero. With NumberFormat's value this fixes the text |
| BaseConvert.Hex4 | IPv6Calculator.php:248-249 | a group written by `str_pad(base_convert(...), 4, '0', STR_PAD_LEFT)` is at least four lower-case hex digits; Hex4RoundTrip and Hex4OfParse make it exactly four that read back as the value, for values below 2^16 |
| WorkedExample.DocumentationQuery | IPv6Calculator.php:38-55 | `2001:db8::1/64` succeeds; the stored groups are `2001`, `0db8`, five `0000` and `0001`; `min` joins `2001`, `0db8` and six `0000`; `max` joins `2001`, `0db8`, `0000`, `0000` and four `ffff`; `hosts` formats 2^64 |
| WorkedExample.ExampleSplit | IPv6Calculator.php:271 | `explode(':', '2001:db8::1')` gives an empty piece between the two colons |
| WorkedExample.ExampleExpand | IPv6Calculator.php:311-339 | that empty piece becomes five zero groups |

## Left out

- The request driver at IPv6Calculator.php:343-353 reads `$_REQUEST` and prints with `var_dump` and `echo`. It is input and output around the class.
- `getNetworkRange` (IPv6Calculator.php:92-94) only returns the property. In the model that is the field `networkRange`.
- `ADDRESS_NOT_STRING` (IPv6Calculator.php:168-170) cannot happen: `ip` is always a string cut from the query. The codes are kept, the branch is not.
- `ADDRESS_NOT_SEGMENTED` (IPv6Calculator.php:272-274) cannot happen: `explode` never returns an empty array. The code is kept, the branch is not.
- The `!is_array` exception of `validateAddressFormat` (IPv6Calculator.php:196-197) cannot happen: the split result is an array or false.
- The by-reference parameter `&$segments` of `normalizeSegments` and `expandSegments` is modelled as a returned value that the caller stores.
- Calculation.PrefixStep: `is_numeric` is taken as a non-empty string of decimal digits. Signs, blanks, decimals and exponents (`"64.0"`, `" 64"`, `"6e1"`) are not modelled, and neither is the float division and remainder they lead to.
- Calculator.IPv6Calculator.IsValidPrefix: the same restriction of `is_numeric` to decimal digits.
- BaseConvert.IsNumeric: PHP's `is_numeric` also accepts signs, leading blanks, decimals and exponents. The model accepts only non-empty strings of decimal digits.
- Calculator.IPv6Calculator.CalcSubnet: it requires eight stored groups and a numeric prefix of at most 128. `calc` only calls it after the address and prefix checks, which guarantee both. The source has no such guard.
- `strlen` is counted in characters, not bytes. The two differ only for characters outside ASCII.
- Subnet.BoundaryGroups: a boundary group worth 2^63 or more, such as sixteen hex digits starting with `8` to `f`, is read exactly. PHP's `base_convert` goes through a double there, which keeps only 53 significant bits. For `ffffffffffffffff:::::::/2` the model keeps the bits `11` and gives `c000` and `ffff`, and PHP's result differs from that. Going by the double branch of `_php_math_zvaltobase` in PHP's `ext/standard/math.c`, which writes at most 64 digits, the 65-digit binary text of 2^64 loses its leading `1`. The kept bits are then `00`, giving `0000` and `3fff`.
- Calculator.IPv6Calculator.CalcSubnet: the same exact reading of long boundary groups. `calc` (Calculation.Calculate and Calculator.IPv6Calculator.Calc) therefore differs from PHP for queries such as `ffffffffffffffff:::::::/2`.
- Subnet.Hosts: `pow` gives a float from 2^63 on. Powers of two are exact in a double, so the model takes the exact natural number.
- BaseConvert.NumberFormat: the thousands separator is `,` and there are no decimals, as with `number_format($n, 0)`. Locale settings are not modelled.
- `PHP_EOL` is taken as `"\n"`.
- Exceptions carry only their message. The exception class and stack are not modelled.
