# mac-oui in Dafny

A model of `index.js`, a small JavaScript library for 48-bit MAC addresses
(EUI-48), with proofs about it. The library has two cores.

- **The address codec.** `parse` reads an address from text or from an
  integer: a 12-character shortcut, a 17-character fixed-position shortcut,
  then a general form that splits the text at every non-hex character and
  pads the groups. `toString` renders the canonical `XX:XX:XX:XX:XX:XX`.
  `getOui` gives the first three octets. `getMulticast` and `getLAA` read
  the I/G and U/L bits (section 8 of IEEE Std 802-2014). `isDocker` tests
  the `02:42` prefix. `dockerIP` renders the low 32 bits as a dotted quad.
  `getVendor` looks the OUI up in a registry map.
- **The OUI registry.** `OUIDb` reads the IEEE Registration Authority's
  `oui.txt` listing. It normalises line ends and drops the four header
  lines. It then collects lines into blocks and stores one record per new
  key, skipping a key it has already seen.

Files:

- `wrappers.dfy`: `Option` and `Result`.
- `strings.dfy`: the string built-ins the code calls (`padStart`, `split`,
  `join`, a global `replace` and the `match(/.{2}/g)` pairing), written as
  recursive functions, with lemmas about them.
- `numerals.dfy`: hex numerals (`parseInt(s, 16)`, `toString(16)` with
  `toUpperCase`) and decimal numerals.
- `mac_address.dfy`: the codec.
  - `Parse` is the specification function; `ParseMac` is the method that
    builds the padded string in a loop, as the source does.
  - `Format`/`ToString`, `Oui`/`GetOui`, `IsGroup`/`GetMulticast`,
    `IsLocal`/`GetLAA`, `HasDockerPrefix`/`IsDocker` and
    `Octets`/`DottedQuad`/`DockerIP` model the other exports.
- `oui_registry.dfy`: the registry.
  - `Step` is one iteration of the loop and `Ingest` is the fold of `Step`
    over the lines. `Registry(data)` is the map `OUIDb(data)` returns.
  - `Build` is the method with the source's loop, a mutable map and a
    pending block, proved equal to `Registry`.
  - The lemmas say which keys end up in the map and with which record.
- `mac_examples.dfy`: the concrete cases of `test/test.js`, computed on the
  model.

The codec's functions and `getVendor` throw what `parse` throws, so each
returns a `Result` whose one error is `InvalidMacAddress`. `OUIDb` never
calls `parse` and never throws.

Where the code and its tests or its description disagree, the model follows
the code:

- `"0:0:10:2:0:0"` is twelve characters long. The 12-character shortcut
  therefore reads its leading `0` and answers 0, not `0x10020000`
  (`ParseShortGroups`).
- `02:42:ac:11:00:02` carries `0xAC110002`, whose second octet is 17. So
  `dockerIP` answers `172.17.0.2`, not `172.16.0.2` (`DockerAddress`).

## Model

| member | source | states |
|---|---|---|
| MacAddress.Parse | index.js:6-31 | defines `parse`: a bigint or an integer comes back as it is, text goes through `ParseText`; its laws are the `Parse…` lemmas below |
| MacAddress.ParseText | index.js:9-29 | defines `parse` on text: the 12-character shortcut, the 17-character shortcut, the length check, then the split, the padding and the 12-digit check |
| MacAddress.ParseMac | index.js:6-31 | the method follows the source's shortcuts, its length check and its loop, and returns exactly `Parse(input)` |
| MacAddress.PadGroups | index.js:25-26 | the loop that appends the padded groups one at a time builds exactly `PadJoin(groups, width)` |
| MacAddress.ParseInt | index.js:7-8 | integer input is returned unchanged, with no range check |
| MacAddress.ParseBadLength | index.js:20 | text that is empty or longer than 17 characters fails with `InvalidMacAddress` |
| MacAddress.ParseTextInRange | index.js:10-29 | whatever text parses is a 48-bit value, `0 <= v < 2^48` |
| MacAddress.Pick | index.js:16 | the 17-character shortcut reads twelve characters: character `i` comes from position `i + i / 2` |
| MacAddress.ParseTwelve | index.js:10-13 | 12-character text that starts with a hex digit is the value of its longest leading hex run, or all of it when all of it is hex |
| MacAddress.ParseSeventeen | index.js:15-18 | 17-character text that starts with a hex digit is read from the twelve group positions alone; two texts that agree there parse alike, whatever their separators |
| MacAddress.SplitNonHex | index.js:23 | the split at every single non-hex character gives one more group than there are separators; every group is hex; together the groups hold exactly the hex characters of the text |
| MacAddress.SplitNonHexFirst | index.js:23 | a hex run followed by a separator is the first group, and the rest is split on its own |
| MacAddress.PadJoin | index.js:24-26 | padding and joining hex groups gives hex text |
| MacAddress.ParseFallback | index.js:20-29 | for text of 1 to 17 characters that neither shortcut takes, the parse succeeds exactly when the padded join has twelve characters, with that string's hex value; otherwise it fails |
| MacAddress.PadJoinValue | index.js:24-26 | groups that fit their width pad to `n * width` hex digits whose value is the groups read as base-`16^width` digits |
| MacAddress.ParseGrouped | index.js:23-29 | text whose group count divides twelve and whose groups fit `12 / n` digits each parses to the groups' value |
| MacAddress.ParseHalves | index.js:23-29 | two groups of six hex digits around one separator read as the twelve digits |
| MacAddress.ParseQuads | index.js:23-29 | three groups of four hex digits between two separators read as the twelve digits |
| MacAddress.Format | index.js:39-40 | defines the rendering: upper-case hex, zero-padded to twelve digits, cut into pairs and joined with colons; its laws are `FormatDigits`, `ParseFormat` and `ToStringShape` |
| MacAddress.ToString | index.js:38-41 | `toString` fails exactly when `parse` fails |
| MacAddress.PairsJoin | index.js:40 | `match(/.{2}/g).join(":")` of twelve digits is the six pairs with colons between them |
| MacAddress.ColonsLayout | index.js:40 | the colon form is 17 characters long, with a `:` at every position `i % 3 == 2` and the digits elsewhere; the 17-character shortcut picks exactly the digits back out of it |
| MacAddress.FormatDigits | index.js:38-41 | for `0 <= v < 2^48`, the rendering is the colon form of the twelve upper-case digits of `v` |
| MacAddress.ParseFormat | index.js:38-41 | for `0 <= v < 2^48`, parsing the rendering gives `v` back (through the 17-character shortcut) |
| MacAddress.ToStringShape | index.js:38-41 | `toString` of a 48-bit value is 17 characters: `:` exactly at positions 2, 5, 8, 11 and 14, upper-case hex digits elsewhere |
| MacAddress.ToStringIdempotent | index.js:38-41 | rendering the rendering changes nothing |
| MacAddress.TextRoundTrip | index.js:6-41 | every text that parses renders to text that parses to the same value |
| MacAddress.Oui | index.js:49 | defines the OUI: the value shifted right by 24 bits, in upper-case hex padded to six digits; its law is `OuiDigits` |
| MacAddress.GetOui | index.js:48-50 | `getOui` fails exactly when `parse` fails |
| MacAddress.LeadingDigits | index.js:49 | the first `k` of the twelve digits are the digits of `v / 16^(12-k)`, and read back as that value |
| MacAddress.OuiDigits | index.js:48-50 | the OUI is six upper-case hex digits with value `v / 2^24`; these are the first six digits, that is the first three pairs of the rendering |
| MacAddress.GetMulticast | index.js:57-59 | `getMulticast` fails exactly when `parse` fails; otherwise it reads bit 40 (`IsGroup`) |
| MacAddress.GetLAA | index.js:65-67 | `getLAA` fails exactly when `parse` fails; otherwise it reads bit 41 (`IsLocal`) |
| MacAddress.BitsOfFirstOctet | index.js:57-67 | the first octet of the rendering is `v / 2^40`; `getMulticast` is its lowest bit and `getLAA` its next bit |
| MacAddress.DockerIsLocalUnicast | index.js:57-77 | a Docker address is locally administered and not multicast |
| MacAddress.IsDocker | index.js:74-77 | `isDocker` fails exactly when `parse` fails; otherwise it compares the value shifted right by 32 bits with `0x0242` (`HasDockerPrefix`) |
| MacAddress.DockerIffRendered | index.js:74-77 | a 48-bit value is a Docker address exactly when its rendering starts with `02:42:` |
| MacAddress.DockerDigits | index.js:74-77 | the first four digits are `0242` exactly when the top sixteen bits are `0x0242` |
| MacAddress.DottedQuad | index.js:84-85 | defines the dotted quad: the decimal numerals of the four low octets joined with dots; its laws are `DottedQuadOctets` and `DottedQuadDetermined` |
| MacAddress.DockerIP | index.js:83-86 | `dockerIP` fails exactly when `parse` fails |
| MacAddress.Octets | index.js:84-85 | the four octets are bytes that make up `v mod 2^32`, most significant first |
| MacAddress.DottedQuadOctets | index.js:83-86 | the dotted quad splits at its dots into four decimal numerals with no leading zero, each below 256, that read back as `v mod 2^32` |
| MacAddress.DottedQuadDetermined | index.js:83-86 | any text with those properties is the dotted quad, so they fix the text `dockerIP` returns |
| MacAddress.BytesUnique | index.js:84-85 | four bytes read most significant first determine each other |
| Strings.PadStart | index.js:26 | `padStart` keeps the text as its suffix, fills the front with the pad character and reaches the target length |
| Strings.SplitOn | index.js:99 | a split has at least one piece |
| Strings.SplitOnPieces | index.js:99 | no piece of a split holds the separator, whatever its length |
| Strings.SplitOnLeftmost | index.js:105 | a split cuts at the leftmost occurrence of the separator: none starts inside the first piece; with more than one piece, one starts right after it and the other pieces are the split of the text after that occurrence; with one piece, that piece is the whole text |
| Strings.SplitOnNone | index.js:105 | text in which the separator does not occur splits into itself alone |
| Strings.ReplaceAll | index.js:98 | defines a global `replace` of a literal pattern (also used at index.js:108): every non-overlapping occurrence, found from the left, replaced in one pass, as the split on the pattern rejoined with the replacement; its law is `ReplaceAllAbsent` |
| Strings.ReplaceAllAbsent | index.js:98 | a global replace leaves text in which the pattern does not occur unchanged |
| Strings.Join | index.js:40 | defines `parts.join(sep)` (also used at index.js:85): the pieces with the separator between each two, the empty list giving empty text; its laws are `JoinSplitOn` and `SplitOnJoin`, which make it the inverse of `SplitOn` |
| Strings.JoinSplitOn | index.js:98 | joining the pieces of a split with the separator gives the text back: a split loses nothing |
| Strings.SplitOnJoin | index.js:85 | splitting text joined with a character that no piece holds gives the pieces back |
| Strings.SplitOnCharPieces | index.js:108 | no piece of a split on one character holds that character, and every piece character comes from the text |
| Strings.Pairs | index.js:40 | `match(/.{2}/g)` gives `|s| / 2` consecutive pairs |
| Numerals.HexPrefix | index.js:11 | `parseInt(s, 16)` is NaN exactly when the text is empty or does not start with a hex digit |
| Numerals.HexRun | index.js:11 | the run `parseInt` reads is a hex prefix of the text that stops at the first non-hex character |
| Numerals.JsHex | index.js:39 | defines BigInt's `toString(16).toUpperCase()` for either sign (also used at index.js:49): `UpperHex` of the value, with a minus sign before the numeral of the magnitude when the value is negative |
| Numerals.UpperHex | index.js:39 | `toString(16).toUpperCase()` is a non-empty upper-case numeral that reads back as the value and has no leading zero: a single digit, or a first digit other than `0` |
| Numerals.PadUpperHex | index.js:39 | zero-padding that numeral to `n` digits gives the `n` digits of the value, when it fits |
| Numerals.DigitsValue | index.js:39 | the `n` digits of a value below `16^n` read back as the value |
| Numerals.DigitsOfValue | index.js:39 | an upper-case digit string is the digits of its own value |
| Numerals.HexValueConcat | index.js:26 | the value of two digit strings side by side is the high part shifted past the low part |
| Numerals.Decimal | index.js:85 | the decimal numeral is non-empty, has no leading zero and reads back as the value |
| Numerals.DecimalUnique | index.js:85 | a decimal numeral with no leading zero is the numeral `toString()` gives for its value, so that numeral is the only one |
| OuiRegistry.Normalize | index.js:98 | defines the normalisation: every `\r\n` becomes `\n`, then every run of four tabs becomes two; its law is `NormalizeClean` |
| OuiRegistry.Body | index.js:99-100 | defines the lines the loop reads: the normalised text split at every line feed, with the first four lines removed; its laws are `BodyLines` and `HeaderIgnored` |
| OuiRegistry.DropHeader | index.js:100 | `splice(0, 4)` removes the first four lines, or all of them when there are fewer |
| OuiRegistry.Fields | index.js:105 | defines `line.split('\t\t')`, the fields of one line; its law is `FieldsApart` |
| OuiRegistry.Field | index.js:113-115 | `group[i]?.[1]` is present exactly when line `i` of the pending block exists and has at least two fields, and then it is that line's second field |
| OuiRegistry.Key | index.js:108 | defines the key of a block: the first field of its first line, up to the first space, with every dash removed; its law is `KeyIsShaped` |
| OuiRegistry.Record | index.js:109-116 | defines the record of a block: the second field of lines 1, 3, 4 and 5, each absent when that line or field is missing |
| OuiRegistry.Step | index.js:104-120 | defines one iteration of the loop: a non-empty line joins the pending block; an empty line after fewer than two lines does nothing; otherwise the block's record is stored under its key unless the key is present, and the block is cleared; its laws are `StepKeeps`, `StepAdds` and `FlushClears` |
| OuiRegistry.Ingest | index.js:101-121 | defines the loop: `Step` folded over the lines from an empty map and an empty block; its laws are `Persist`, `Sound`, `Complete` and `FirstWins` |
| OuiRegistry.Registry | index.js:97-123 | defines the map `OUIDb` returns: `Ingest` run on the normalised lines after the header |
| OuiRegistry.Build | index.js:97-123 | the method, with the source's loop, mutable map and pending block, returns `Registry(data)`, and every key has neither spaces nor dashes |
| OuiRegistry.KeyIsShaped | index.js:108 | a key has neither spaces nor dashes |
| OuiRegistry.IngestKeysShaped | index.js:108-111 | no key stored in the map has a space or a dash |
| OuiRegistry.StepKeeps | index.js:110-117 | one step never removes a key and never changes a stored record |
| OuiRegistry.StepAdds | index.js:104-119 | a key appears only when an empty line closes a block of at least two lines that carries that key, with that block's record |
| OuiRegistry.Persist | index.js:101-121 | the map after any prefix of the lines is contained, records included, in the final map |
| OuiRegistry.Complete | index.js:107-119 | every block closed with at least two lines has its key in the final map |
| OuiRegistry.FlushClears | index.js:119 | closing a block leaves the pending block empty |
| OuiRegistry.ShortBlockKept | index.js:107 | an empty line that finds fewer than two pending lines changes nothing, the pending block included |
| OuiRegistry.Sound | index.js:103-121 | every stored key comes from a closing empty line that carries it, no earlier closing carried it, and its record is that block's |
| OuiRegistry.FirstWins | index.js:110-117 | the first block that carries a key gives that key its record in the final map |
| OuiRegistry.TrailingIgnored | index.js:103-121 | lines after the last empty line are never recorded: they only pile up in the pending block |
| OuiRegistry.HeaderIgnored | index.js:99-100 | the first four lines are never read: two listings whose lines agree from the fifth on (or that both have at most four lines) give the loop the same lines and yield the same map |
| OuiRegistry.NormalizeClean | index.js:98 | the normalisation leaves text with no `\r\n` and no run of four tabs unchanged |
| OuiRegistry.BodyLines | index.js:99 | no line the loop reads holds a line feed |
| OuiRegistry.FieldsApart | index.js:105 | the fields of a line hold no double tab, and joined with double tabs they give the line back |
| OuiRegistry.LoneLineCarried | index.js:107 | a lone line between empty lines stays pending and becomes the key line of the next block |
| OuiRegistry.GetVendor | index.js:133-135 | `getVendor` fails exactly when `parse` fails; otherwise it looks the OUI up in the map |
| OuiRegistry.GetVendorLookup | index.js:133-135 | a 48-bit address's vendor is the map entry at the first six of its twelve digits; a miss is an absent answer, not an error |
| OuiRegistry.VendorOfBlock | index.js:133-135 | an address whose OUI was first carried by a closed block of the listing gets that block's record |
| MacExamples.ParseStandard | test/test.js:4 | `bc:24:11:cf:9a:4b` parses to `0xBC2411CF9A4B` |
| MacExamples.ParseBare | test/test.js:5 | `bc2411cf9a4b` parses to `0xBC2411CF9A4B` |
| MacExamples.ParseDashes | test/test.js:6 | `bc-24-11-cf-9a-4b` parses to `0xBC2411CF9A4B` |
| MacExamples.ParseThreeGroups | test/test.js:7 | `bc24.11cf.9a4b` parses to `0xBC2411CF9A4B` |
| MacExamples.ParseTwoGroups | test/test.js:8 | `bc2411.cf9a4b` parses to `0xBC2411CF9A4B` |
| MacExamples.ParseShortGroups | test/test.js:9 | `0:0:10:2:0:0` parses to 0, through the 12-character shortcut |
| MacExamples.ProxmoxRendering | test/test.js:11 | the test address renders as `BC:24:11:CF:9A:4B` |
| MacExamples.ProxmoxOui | test/test.js:12 | its OUI is `BC2411` |
| MacExamples.ProxmoxBits | test/test.js:13-17 | it is neither multicast, nor locally administered, nor a Docker address |
| MacExamples.MulticastSample | test/test.js:14 | `01:00:5e:00:00:16` is multicast |
| MacExamples.LocalSample | test/test.js:16 | `02:00:00:00:00:00` is locally administered |
| MacExamples.DockerSample | test/test.js:18 | `02:42:ac:11:00:02` is a Docker address |
| MacExamples.DockerAddress | test/test.js:19 | its dotted quad is `172.17.0.2` |
| MacExamples.VendorFound | test/test.js:23-26 | a one-entry map gives the test address's vendor; an empty map gives an absent answer |

## Left out

- `test/example.js` and the `oui.txt` branch of `test/test.js` (lines 28-37) read files, run `arp -a` and print. That is I/O with no logic to verify.
- JavaScript `Number` input that is not an integer: `BigInt(mac)` throws a `RangeError` there (index.js:8). This is floating point; integer input is an `int`.
- `parseInt` skips leading white space and accepts a sign and a `0x` prefix; `HexPrefix` reads only a leading run of hex digits. On the two shortcut paths this changes the answer. `0x0000000001` is 1 in the source and 0 in the model. ` 00000000001` is 1 in the source and an error in the model, and so is `-00000000001`, which is -1 in the source.
- MacAddress.ParseTwelve: states the model's reading. For text that starts `0x`, such as `0x0000000001`, the source reads the digits after the prefix instead.
- MacAddress.ParseSeventeen: the same holds for the twelve picked characters when they start `0x`.
- MacAddress.ParseFallback: describes the model's shortcut test, in which 12- and 17-character text that starts with a non-hex character reaches the general form. In the source a leading sign takes the shortcut instead: `-1:23:45:67:89:ab` is 17 characters long, and the 17-character shortcut gives -0x123456789AB, while the model splits it into seven groups, pads the empty first one to `0` and reads `0x0123456789AB`.
- MacAddress.ParseGrouped: describes the model's shortcut test in the same way. `-123:456:789` meets every requirement of the lemma: it has four groups of at most three digits. In the source it is 12 characters long and `parseInt` reads it as -0x123 (-291), while the model pads the empty first group to `000` and reads `0x123456789`.
- MacAddress.ParseTextInRange: holds for the model's sign-free `parseInt` only. In the source, `parse("-00000000001")` takes the 12-character shortcut and gives -1, which is outside `[0, 2^48)`. The law holds for text with no leading sign.
- MacAddress.TextRoundTrip: holds for sign-free text only. In the source, `toString` of `-00000000001` is `00:00:00:00:00:-1`, which parses back to 0 through the 17-character shortcut.
- `parseInt` returns a double. Twelve hex digits are below 2^53, so the double is exact and an `int` is faithful.
- The regular expressions are modelled by recursive sequence functions: `split(/[^A-F0-9]/i)`, the two global `replace`s, and `match(/.{2}/g)`. There is no regular expression engine.
- JavaScript strings are UTF-16; here a string is a sequence of `char`s. The two lengths agree for text in the Basic Multilingual Plane. A character outside it counts 1 here and 2 in JavaScript (a surrogate pair), so for such text the model's 12- and 17-character tests (index.js:10, index.js:15) and its split at index.js:23 can differ from the source's.
- `toString(16)` and `toUpperCase()` are one function, `UpperHex`. A negative value renders as `-` before the numeral of its magnitude (`JsHex`).
- MacAddress.FormatDigits: proved only for `0 <= v < 2^48`. Outside that range, `match(/.{2}/g)` silently drops an odd last digit, and no caller relies on it.
- MacAddress.ToStringShape: requires a 48-bit value, for the same reason. Integer input outside the range is modelled by `Format` but not proved about.
- The insertion order of the JavaScript `Map` is not modelled. `get` and `has` cannot observe it, so a Dafny `map` is used.
- Test lines 9 and 19 of `test/test.js` assert values the code does not produce. The model proves what the code produces (`ParseShortGroups`, `DockerAddress`).
