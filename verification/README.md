# cloudflare-ktor, modelled in Dafny

cloudflare-ktor is a ktor feature that works out the client IP of a call that may have come
through Cloudflare. It stores the request's remote host in a canonical text form (`storeIp`)
and parses that text again. When the `CF-Connecting-IP` header is present and the address lies
in one of Cloudflare's published networks, the header becomes the client IP. This project
models the address algebra behind that decision and proves what it does:
- the `IPv4` and `IPv6` classes;
- their parsing, text forms and prefix matching;
- the `SpecialRange` table;
- `IPUtils`;
- the branch logic of `CloudflareFeature.intercept`.

Modules, one per file:

| module | file | what it holds |
|---|---|---|
| `Results` | `results.dfy` | `Result` with the two failure kinds: `ArgumentError` for `IllegalArgumentException` and `NumberFormatException`, which `IP.parse` swallows; `OtherError` for index out of bounds and `IllegalStateException`, which escape it. Also `Option`. |
| `Strings` | `strings.dfy` | Kotlin's `split`, `replace`, `joinToString`, `padStart`, `toLowerCase` and `filter { isNotEmpty() }` on strings, with their laws. |
| `Numerals` | `numerals.dfy` | `toInt(radix)` (sign, digits, 32-bit range) and `toString(radix)`, with the round trip between them. |
| `Cidr` | `cidr.dfy` | `matchCIDR` as a loop, its specification, and its meaning as a comparison of the top bits of two big-endian numbers. |
| `Addresses` | `addresses.dfy` | The `IP` datatype, both constructors, `match`, `IPv4.toString` and `IPv4.parse`. |
| `SpecialRanges` | `special_ranges.dfy` | The `SpecialRange` table, `subnetMatch`, `isIPv4MappedAddress` and `toIpV4Address`. |
| `ZeroRuns` | `zero_runs.dfy` | The zero-run scan of `abbreviate`, proved against an independent choice of the leftmost longest run. |
| `IPv6Text` | `ipv6_text.dfy` | `validate`, `normalize` and `abbreviate` as methods, each with its specification function. |
| `IPv6TextFacts` | `ipv6_text_facts.dfy` | What the two replacement chains of `abbreviate` do to the groups. |
| `Parsing` | `parsing.dfy` | `IPv6.parse`, `IP.parse` and `IPv6.toString`. |
| `IPv6NormalForm` | `normal_form.dfy` | The text `toString` gives an IPv6 address, which texts `validate` and `normalize` accept, and which do not parse. |
| `IPUtils` | `ip_utils.dfy` | `isInRange` and `storeIp`. |
| `Cloudflare` | `cloudflare.dfy` | The decision `intercept` makes. |
| `Examples` | `cases.dfy` | Worked examples for particular addresses. |

The code is modelled as written. These behaviours of the source are reproduced, not corrected:
- With a "::", `validate` splits the text before it twice and never looks at the text after
  it. So four or more groups before the "::" are rejected, and the groups after it are checked
  only by `toInt(16)` and the constructor.
- `normalize` writes the groups after the "::" backwards from the last slot, overwriting groups
  from before the "::" where the two overlap. With more than eight groups after the "::", the
  write runs past the first slot and throws index out of bounds. That is an `OtherError`, which
  escapes `IP.parse`.
- `toString` keeps the leading zeros of a non-zero first group, because `abbreviate` normalizes
  the text again and only strips zeros after a ':'. So 1:0:0:1:0:0:0:1 prints as
  `0001:0:0:1::1`.
- When the longest zero run starts at the fifth group or later, the text `toString` gives has
  four or more groups before its "::". `validate` rejects that text, so `intercept` returns the
  stored text and ignores the header. The model's example is 2001:db8:1:2:0:0:0:1, which is
  stored as `2001:db8:1:2::1`. An address such as 1:2:3:4:0:0:0:5 is stored as `0001:2:3:4::5`,
  not `1:2:3:4::5`, because the first group keeps its padding.
- Mixed notation such as `::ffff:1.2.3.4` is no address: `toInt(16)` rejects the dotted group.
- An entry of a range list without '/' never matches: `==` on these classes is object identity.
  It is still parsed, and that parse may throw.
- When the stored text parses again and the header is not taken, `intercept` keeps the raw
  remote host, not the stored canonical text; only a stored text that does not parse again is
  used itself.
- `isIPv4MappedAddress` compares `Range` values field by field, but their address field is an
  `IPv6` object without `equals`, so ranges compare by the identity of their address objects.
  Only the sixth entry of the table counts, not the equal entries after it, and `subnetMatch` is modelled as returning the
  position of the range it finds.

## Model

| member | source | states |
|---|---|---|
| Addresses.NewIPv4 | src/main/kotlin/dev/zihad/cloudflarektor/IP.kt:10-20 | The constructor's checks give an address exactly when there are four octets, each in 0..255; otherwise they give an argument error. |
| Addresses.NewIPv6 | src/main/kotlin/dev/zihad/cloudflarektor/IP.kt:55-76 | Sixteen entries are first combined in pairs with 32-bit `(a shl 8) or b`. Any count other than 8 or 16 is an argument error, and so is any resulting group outside 0..0xffff. |
| Addresses.ConstructedValid | src/main/kotlin/dev/zihad/cloudflarektor/IP.kt:7-76 | Every constructed address satisfies the class invariant, and every construction failure is an argument error. Eight groups are kept as given, and construction succeeds on eight groups exactly when each is in 0..0xffff. |
| Addresses.FromBytes | src/main/kotlin/dev/zihad/cloudflarektor/IP.kt:57-65 | Sixteen bytes construct the address whose groups are the big-endian byte pairs `256 * hi + lo`. |
| Addresses.CombinedBytes | src/main/kotlin/dev/zihad/cloudflarektor/IP.kt:57-65 | The combining loop on sixteen bytes gives eight groups, each within 16 bits. |
| Addresses.ShlOr8Bytes | src/main/kotlin/dev/zihad/cloudflarektor/IP.kt:61 | For two bytes, the 32-bit `(a shl 8) or b` is `256 * a + b`. |
| Addresses.BitOrDisjoint | src/main/kotlin/dev/zihad/cloudflarektor/IP.kt:61 | Or-ing a number whose low k bits are clear with a number below 2^k is addition. |
| Addresses.IPv4MatchIsPrefixTest | src/main/kotlin/dev/zihad/cloudflarektor/IP.kt:22-24 | For prefixes 0..32, IPv4 `match` is true exactly when the two addresses, read as 32-bit numbers, agree on their top `cidrRange` bits. |
| Addresses.MatchIsPrefixTest | src/main/kotlin/dev/zihad/cloudflarektor/IP.kt:78-80 | For both families, `match` is false against the other family and otherwise compares the top `cidrRange` bits of the two addresses read as numbers. |
| Addresses.MatchWholeWidth | src/main/kotlin/dev/zihad/cloudflarektor/IP.kt:78-80 | Over the full width, `match` is equality. An address matches itself at every prefix up to its width and throws (index out of bounds) beyond it. |
| Addresses.IPv4TextRoundTrip | src/main/kotlin/dev/zihad/cloudflarektor/IP.kt:26-42 | `IPv4.parse(a.toString())` gives back the same octets for every valid address. |
| Addresses.ParseIPv4Iff | src/main/kotlin/dev/zihad/cloudflarektor/IP.kt:31-42 | `IPv4.parse` succeeds exactly when the text is four non-empty runs of ASCII digits joined by '.', each worth at most 255 (leading zeros allowed). The octets are those values. |
| Addresses.DecimalRunValue | src/main/kotlin/dev/zihad/cloudflarektor/IP.kt:38 | `toInt()` of a run of decimal digits is its value when that fits an Int, and a NumberFormatException otherwise. |
| Addresses.ColonNotIPv4 | src/main/kotlin/dev/zihad/cloudflarektor/IP.kt:35-41 | Text containing ':' is never an IPv4 address. |
| Addresses.ParseIPv4Valid | src/main/kotlin/dev/zihad/cloudflarektor/IP.kt:35-42 | A successful `IPv4.parse` gives a valid IPv4 address, and every failure is an argument error. |
| Cidr.MatchCIDR | src/main/kotlin/dev/zihad/cloudflarektor/IPUtils.kt:13-35 | The loop computes the specification: lists of different lengths are an argument error; a covered group that disagrees on its kept bits gives false; a prefix longer than the lists, with all groups agreeing, runs off the end (index out of bounds); otherwise true. |
| Cidr.ZeroPrefixMatches | src/main/kotlin/dev/zihad/cloudflarektor/IPUtils.kt:22-34 | With a prefix of zero bits or fewer, any two lists of the same length match. |
| Cidr.FullWidthMatchesEqual | src/main/kotlin/dev/zihad/cloudflarektor/IPUtils.kt:22-34 | With the full width as the prefix, two lists match exactly when they are equal. |
| Cidr.CidrMatchIsPrefixTest | src/main/kotlin/dev/zihad/cloudflarektor/IPUtils.kt:22-34 | For 0 <= c <= total width, `matchCIDR` is true exactly when the two lists, read as big-endian numbers in base 2^width, agree on their top c bits. |
| Cidr.ShorterPrefixMatches | src/main/kotlin/dev/zihad/cloudflarektor/IPUtils.kt:22-34 | A match at prefix c is also a match at every shorter prefix. |
| Cidr.CidrWholeGroups | src/main/kotlin/dev/zihad/cloudflarektor/IPUtils.kt:22-34 | A prefix of k whole groups matches exactly when the first k groups are equal. |
| Cidr.CidrMatchPartial | src/main/kotlin/dev/zihad/cloudflarektor/IPUtils.kt:23-28 | A prefix shorter than one group compares only the top bits of the first group. |
| Cidr.CidrMatchStep | src/main/kotlin/dev/zihad/cloudflarektor/IPUtils.kt:22-31 | A prefix covering the whole first group is false when the first groups differ, and otherwise the match of the remaining groups with the prefix reduced by one group width. |
| Cidr.CidrMatchOk | src/main/kotlin/dev/zihad/cloudflarektor/IPUtils.kt:13-35 | On lists of the same length, `matchCIDR` never throws while the prefix fits. |
| Cidr.Slash16Example | src/main/kotlin/dev/zihad/cloudflarektor/IPUtils.kt:22-31 | 192.168.1.5 matches 192.168.0.0 at 16 bits but not 192.169.0.0. |
| SpecialRanges.SubnetMatch | src/main/kotlin/dev/zihad/cloudflarektor/IPUtils.kt:4-11 | The loop returns the position of the first range that `match` accepts, with no earlier range matching, or null when none matches. An exception from `match` escapes. |
| SpecialRanges.FirstMatchAt | src/main/kotlin/dev/zihad/cloudflarektor/IPUtils.kt:4-11 | The first range that does not simply fail to match decides the result: its position if it matches, its exception if it throws. With no such range, the result is null. |
| SpecialRanges.FirstMatchingRangeSound | src/main/kotlin/dev/zihad/cloudflarektor/IPUtils.kt:4-11 | A returned position is a matching range with none matching before it; null means no range matches. When no `match` throws, neither does `subnetMatch`. |
| SpecialRanges.TableMatchesOk | src/main/kotlin/dev/zihad/cloudflarektor/IP.kt:103-115 | Matching a valid IPv6 address against any entry of the table never throws. |
| SpecialRanges.MappedEntryTest | src/main/kotlin/dev/zihad/cloudflarektor/IP.kt:109 | The IPV4Mapped entry accepts exactly the addresses whose first five groups are 0 and whose sixth is 0xffff. |
| SpecialRanges.MappedMissesEntry | src/main/kotlin/dev/zihad/cloudflarektor/IP.kt:104-108 | An address in ::ffff:0:0/96 is rejected by each of the five entries listed before IPV4Mapped. |
| SpecialRanges.MappedMissesEarlierRanges | src/main/kotlin/dev/zihad/cloudflarektor/IP.kt:104-108 | No entry before IPV4Mapped matches an address in ::ffff:0:0/96. |
| SpecialRanges.IPv4MappedIff | src/main/kotlin/dev/zihad/cloudflarektor/IP.kt:49-53 | `isIPv4MappedAddress` holds exactly when groups 1-5 are 0 and group 6 is 0xffff (section 2.5.5.2 of RFC 4291). It never throws. |
| SpecialRanges.ToIpV4AddressBytes | src/main/kotlin/dev/zihad/cloudflarektor/IP.kt:86-96 | For a mapped address, `toIpV4Address` gives the four bytes of groups 7 and 8, high byte first, and they rebuild those groups. Otherwise it throws IllegalStateException. |
| SpecialRanges.MappedOctets | src/main/kotlin/dev/zihad/cloudflarektor/IP.kt:91-95 | `shr 8` and `and 0xff` of two 16-bit groups give four valid octets that rebuild the groups. |
| ZeroRuns.FindZeroRun | src/main/kotlin/dev/zihad/cloudflarektor/IP.kt:203-233 | The scan of the first eight sections finds the leftmost longest run of two or more "0" groups, agreeing with the reference choice. It finds nothing exactly when no two zero groups are adjacent. |
| ZeroRuns.ScanStep | src/main/kotlin/dev/zihad/cloudflarektor/IP.kt:211-223 | One iteration of the scan keeps its invariant: the open run starts where the current run of zeros starts, a closed run has its true length, and the best so far is the leftmost longest among the runs already closed. |
| ZeroRuns.ScanEnd | src/main/kotlin/dev/zihad/cloudflarektor/IP.kt:226-233 | Closing a run still open at the end leaves the best run of the whole list, or none when there is none. |
| ZeroRuns.LongestZeroRunIsBest | src/main/kotlin/dev/zihad/cloudflarektor/IP.kt:210-233 | The reference choice is a maximal run of two or more zeros: no run is longer, and no run as long starts earlier. It is none only when no run reaches two (sections 4.2.1 to 4.2.3 of RFC 5952). |
| ZeroRuns.BestFromChoice | src/main/kotlin/dev/zihad/cloudflarektor/IP.kt:210-233 | Among the runs starting at s or later, the reference choice is the leftmost longest of length at least two. |
| ZeroRuns.BestRunUnique | src/main/kotlin/dev/zihad/cloudflarektor/IP.kt:210-233 | At most one run is the best. |
| IPv6Text.Validate | src/main/kotlin/dev/zihad/cloudflarektor/IP.kt:118-152 | `validate` returns normally exactly when all of the following hold; otherwise it throws IllegalArgumentException. There is at most one "::". With one, neither half starts or ends with ':' and there are at most seven checked groups; without one, there are exactly eight. Every checked group is 1-4 hexadecimal digits in either case. |
| IPv6Text.AllHexGroups | src/main/kotlin/dev/zihad/cloudflarektor/IP.kt:147-151 | The final loop accepts exactly when every checked group matches the group pattern. |
| IPv6Text.Normalize | src/main/kotlin/dev/zihad/cloudflarektor/IP.kt:154-193 | `normalize` returns the eight padded slots joined with ':'. It throws an argument error when `validate` fails or a text without "::" does not split into eight, and index out of bounds when a half has more than eight groups. |
| IPv6Text.FillSlots | src/main/kotlin/dev/zihad/cloudflarektor/IP.kt:169-183 | The two filling loops give the slots of `Slots` (groups after the "::" win where the halves overlap), or index out of bounds when either half has more than eight groups. |
| IPv6Text.PadSections | src/main/kotlin/dev/zihad/cloudflarektor/IP.kt:186-191 | Each of the eight slots becomes "0000" if null and is padded with '0' to four characters. |
| IPv6Text.Abbreviate | src/main/kotlin/dev/zihad/cloudflarektor/IP.kt:195-247 | The method computes the specification: normalize, the first replacement chain, the split, the scan, the cut and the final replacement chain. |
| IPv6Text.CutRun | src/main/kotlin/dev/zihad/cloudflarektor/IP.kt:235-240 | Removing `length` sections at `start` and inserting "g" there leaves the sections before, the marker, then the sections after. |
| IPv6TextFacts.SqueezeZerosGroups | src/main/kotlin/dev/zihad/cloudflarektor/IP.kt:196-201 | On normalized text, the first chain turns every "0000" group into "0" and strips the leading zeros of every other group except the first. |
| IPv6TextFacts.SqueezeGroup | src/main/kotlin/dev/zihad/cloudflarektor/IP.kt:198-200 | Dropping a leading "000", then "00", then "0" from a non-zero four-digit group strips all its leading zeros. |
| IPv6TextFacts.MarkStage | src/main/kotlin/dev/zihad/cloudflarektor/IP.kt:197 | Replacing "0000" in the joined full groups marks exactly the all-zero groups with "g". |
| IPv6TextFacts.DropStage | src/main/kotlin/dev/zihad/cloudflarektor/IP.kt:198-200 | Replacing ":" plus a run of zeros by ":" removes that run from the front of every piece but the first. |
| IPv6TextFacts.UnmarkStage | src/main/kotlin/dev/zihad/cloudflarektor/IP.kt:201 | Replacing "g" by "0" turns each marker piece into "0" and leaves the other pieces alone. |
| IPv6TextFacts.GapToColonsJoin | src/main/kotlin/dev/zihad/cloudflarektor/IP.kt:242-246 | The final chain turns the marker and the separators around it into a single "::" between the sections before and the sections after, at the start, in the middle or at the end. |
| IPv6TextFacts.NoRunUnchanged | src/main/kotlin/dev/zihad/cloudflarektor/IP.kt:242-246 | Without a marker, the final chain leaves the text unchanged. |
| IPv6TextFacts.CompressedGap | src/main/kotlin/dev/zihad/cloudflarektor/IP.kt:235-246 | With a run chosen, the output is the sections before it, "::", then the sections after it; with none, the sections joined by ':'. |
| IPv6TextFacts.SqueezedSections | src/main/kotlin/dev/zihad/cloudflarektor/IP.kt:196-203 | Splitting the squeezed text at ':' gives back the squeezed groups, and none of them contains the marker. |
| IPv6TextFacts.AbbreviatedGroups | src/main/kotlin/dev/zihad/cloudflarektor/IP.kt:196-247 | After normalize, `abbreviate` of eight four-digit groups gives the squeezed groups with the leftmost longest run of two or more zero groups written "::". |
| IPv6TextFacts.AbbreviationOfGroups | src/main/kotlin/dev/zihad/cloudflarektor/IP.kt:195-247 | For any text `normalize` turns into eight four-digit groups, `abbreviate` gives that compressed text. |
| Parsing.ParseIPv6 | src/main/kotlin/dev/zihad/cloudflarektor/IP.kt:249-254 | `IPv6.parse` validates, normalizes and reads each group with `toInt(16)`. A group that is not hexadecimal is a NumberFormatException; otherwise the result is the constructed address. |
| Parsing.Parse | src/main/kotlin/dev/zihad/cloudflarektor/IP.kt:259-270 | `IP.parse` gives the IPv6 reading if there is one, else the IPv4 reading, else null. Only argument errors are swallowed. |
| Parsing.ParsedValid | src/main/kotlin/dev/zihad/cloudflarektor/IP.kt:259-270 | Whatever `IP.parse` returns is a valid address, and any exception that escapes it is not an argument error. |
| Parsing.ParsedIPv6Valid | src/main/kotlin/dev/zihad/cloudflarektor/IP.kt:249-254 | A successful `IPv6.parse` gives a valid IPv6 address. |
| Parsing.NoColonNotIPv6 | src/main/kotlin/dev/zihad/cloudflarektor/IP.kt:118-145 | Text without ':' fails `validate`, so `IPv6.parse` throws IllegalArgumentException. |
| Parsing.ParsedIPv4Text | src/main/kotlin/dev/zihad/cloudflarektor/IP.kt:259-270 | `IP.parse` of the dotted text of an IPv4 address gives back that address. |
| IPv6NormalForm.LeftHalfCountedTwice | src/main/kotlin/dev/zihad/cloudflarektor/IP.kt:133-139 | With one "::", the checked groups are those before it taken twice. Validation therefore implies at most three groups before the "::". |
| IPv6NormalForm.LongLeftHalfRejected | src/main/kotlin/dev/zihad/cloudflarektor/IP.kt:133-139 | Text with four or more groups before its "::" fails `validate` and is no address for `IP.parse`. |
| IPv6NormalForm.GapValidates | src/main/kotlin/dev/zihad/cloudflarektor/IP.kt:123-151 | Text with one "::", at most three hexadecimal groups before it and any lower-case groups after it passes `validate`. The groups after it are never checked. |
| IPv6NormalForm.GapNormalizes | src/main/kotlin/dev/zihad/cloudflarektor/IP.kt:169-191 | For such text, `normalize` puts the groups before the "::" from slot 0 and those after it ending at slot 7. The latter overwrite the former where they meet, the slots between are "0000", and more than eight groups after the "::" throw index out of bounds. |
| IPv6NormalForm.GapSlots | src/main/kotlin/dev/zihad/cloudflarektor/IP.kt:175-191 | The padded slots are the groups after the "::" at the end, the groups before it at the start where not overwritten, and "0000" between. |
| IPv6NormalForm.NormalizedGroupsShape | src/main/kotlin/dev/zihad/cloudflarektor/IP.kt:154-193 | Whatever `normalize` returns is eight groups, each at least four characters long and free of ':'. |
| IPv6NormalForm.ValidatedHasColon | src/main/kotlin/dev/zihad/cloudflarektor/IP.kt:118-152 | Any text that `validate` accepts contains ':'. |
| IPv6NormalForm.FullTextNormalizes | src/main/kotlin/dev/zihad/cloudflarektor/IP.kt:140-191 | Eight lower-case groups of 1-4 hexadecimal digits joined by ':' pass `validate`, and `normalize` pads each to four digits. |
| IPv6NormalForm.FullTextSplits | src/main/kotlin/dev/zihad/cloudflarektor/IP.kt:140-165 | Such text is already lower case, contains no "::", and splits at ':' (with or without dropping empty pieces) into its eight groups. |
| IPv6NormalForm.PaddedGroup | src/main/kotlin/dev/zihad/cloudflarektor/IP.kt:190 | A 16-bit value padded to four hexadecimal digits is a full group. It is "0000" exactly for zero, and stripping its leading zeros gives the unpadded text. |
| IPv6NormalForm.PaddedGroupValue | src/main/kotlin/dev/zihad/cloudflarektor/IP.kt:253 | A padded four-digit group reads back with `toInt(16)` as its value. |
| IPv6NormalForm.HexTextNormalizes | src/main/kotlin/dev/zihad/cloudflarektor/IP.kt:82-84 | The hexadecimal text `toString` builds passes `validate`, and `normalize` gives each group in four digits. |
| IPv6NormalForm.HexTextParses | src/main/kotlin/dev/zihad/cloudflarektor/IP.kt:249-270 | The uncompressed hexadecimal text of an address parses back to that address, through both `IPv6.parse` and `IP.parse`. |
| IPv6NormalForm.IPv6TextForm | src/main/kotlin/dev/zihad/cloudflarektor/IP.kt:82-84 | `toString` gives the printed groups with the leftmost longest run of two or more zero groups written "::" (section 4.2 of RFC 5952). Zero groups print as "0" and other groups lose their leading zeros, except a non-zero first group, which keeps the padding `normalize` gave it. |
| IPv6NormalForm.PrintedGroupsShape | src/main/kotlin/dev/zihad/cloudflarektor/IP.kt:82-84 | The printed groups are non-empty lower-case hexadecimal, and a group is "0" exactly when its value is zero. |
| IPv6NormalForm.DoubleColonSplit | src/main/kotlin/dev/zihad/cloudflarektor/IP.kt:120 | Text built from two ':'-joined halves around one "::" splits at the "::" into those halves. |
| IPv6NormalForm.LateRunNotReparsed | src/main/kotlin/dev/zihad/cloudflarektor/IP.kt:82-84 | When the folded zero run starts at the fifth group or later, the text `toString` gives fails `validate` and is no address for `IP.parse`. |
| IPv6NormalForm.MixedNotationNotParsed | src/main/kotlin/dev/zihad/cloudflarektor/IP.kt:253 | A normalized group containing '.' makes `toInt(16)` throw, so `IP.parse` gives null. |
| IPUtils.IsInRange | src/main/kotlin/dev/zihad/cloudflarektor/IPUtils.kt:37-49 | The loop computes the specification: the first entry that matches gives true, an exception from an entry escapes, and otherwise the result is false. |
| IPUtils.InRangeAt | src/main/kotlin/dev/zihad/cloudflarektor/IPUtils.kt:37-49 | The first entry that does not simply fail to match decides `isInRange`: true if it matches, its exception if it throws. With no such entry, the result is false. |
| IPUtils.BareEntryNeverMatches | src/main/kotlin/dev/zihad/cloudflarektor/IPUtils.kt:43-46 | An entry without '/' never puts an address in range. At most its parse throws. |
| IPUtils.OtherFamilyNeverMatches | src/main/kotlin/dev/zihad/cloudflarektor/IPUtils.kt:39-42 | An entry whose network belongs to the other family never matches. |
| IPUtils.SplitCidrEntry | src/main/kotlin/dev/zihad/cloudflarektor/IPUtils.kt:39-40 | The text `a.b.c.d/n` contains '/' and splits into the network text and the prefix text. |
| IPUtils.CidrEntryMatch | src/main/kotlin/dev/zihad/cloudflarektor/IPUtils.kt:39-42 | An entry `a.b.c.d/n` tests the address with `match` against that network at n bits. |
| IPUtils.InListedNetwork | src/main/kotlin/dev/zihad/cloudflarektor/IPUtils.kt:37-49 | An IPv4 address whose top n bits agree with a listed `a.b.c.d/n` network is in range, provided no earlier entry decides first. |
| IPUtils.StoreIpNotAddress | src/main/kotlin/dev/zihad/cloudflarektor/IPUtils.kt:51-64 | Text that `IP.parse` does not read as an address, or on which it throws, is stored as null. |
| IPUtils.StoreIpIPv4Text | src/main/kotlin/dev/zihad/cloudflarektor/IPUtils.kt:54 | The dotted text of an IPv4 address is stored unchanged. |
| IPUtils.StoreIpMapped | src/main/kotlin/dev/zihad/cloudflarektor/IPUtils.kt:56 | An IPv4-mapped IPv6 address is stored as the dotted text of the IPv4 address in its last two groups, which `IP.parse` reads back as that IPv4 address. |
| IPUtils.StoreIpOtherIPv6 | src/main/kotlin/dev/zihad/cloudflarektor/IPUtils.kt:57-62 | Any other IPv6 text is stored as `abbreviate` of the original text, or as null when `abbreviate` throws. |
| IPUtils.StoreIpHexText | src/main/kotlin/dev/zihad/cloudflarektor/IPUtils.kt:57 | The full hexadecimal text of an address that is not mapped is stored as the address's `toString` text. |
| Cloudflare.Intercept | src/main/kotlin/dev/zihad/cloudflarektor/CloudflareFeature.kt:16-32 | The final value of `finalIp` is the client IP the specification decides, or the exception that escapes. |
| Cloudflare.ClientIpSources | src/main/kotlin/dev/zihad/cloudflarektor/CloudflareFeature.kt:17-31 | The result is one of three things: the raw remote host; the header, and then only when the reparsed address is in range for its family; or the stored text, and then only when it does not parse again. |
| Cloudflare.UnparseablePeer | src/main/kotlin/dev/zihad/cloudflarektor/CloudflareFeature.kt:17-19 | A remote host that `storeIp` cannot store is kept verbatim; in particular one that `IP.parse` cannot read, or throws on, is never stored and so is kept. |
| Cloudflare.NoHeader | src/main/kotlin/dev/zihad/cloudflarektor/CloudflareFeature.kt:23-24 | Without the header, the range lists play no part, and the result is the remote host or the stored text. |
| Cloudflare.IPv4Peer | src/main/kotlin/dev/zihad/cloudflarektor/CloudflareFeature.kt:20-26 | For a dotted IPv4 peer with the header, the header is the result exactly when the address is in the IPv4 list. Otherwise the result is the raw remote host, or the list's exception. |
| Cloudflare.TrustedIPv4Peer | src/main/kotlin/dev/zihad/cloudflarektor/CloudflareFeature.kt:22-26 | A peer inside a listed `a.b.c.d/n` network gets the header verbatim, with no check of its own. |
| Cloudflare.UntrustedIPv4Peer | src/main/kotlin/dev/zihad/cloudflarektor/CloudflareFeature.kt:17-26 | A peer that no IPv4 entry accepts keeps its raw remote host, header or not. |
| Cloudflare.MappedPeerUsesIPv4List | src/main/kotlin/dev/zihad/cloudflarektor/CloudflareFeature.kt:22 | An IPv4-mapped peer reparses as IPv4: the IPv6 list plays no part, and the header is taken when the embedded address is in the IPv4 list. |
| Cloudflare.IPv6Peer | src/main/kotlin/dev/zihad/cloudflarektor/CloudflareFeature.kt:20-29 | For an unmapped IPv6 peer, if its `toString` text reads back as the address, the header is the result exactly when the address is in the IPv6 list. If it does not read back, the stored text is the result. |
| Cloudflare.MappedRunAtStart | src/main/kotlin/dev/zihad/cloudflarektor/IP.kt:203-233 | The zero groups of an IPv4-mapped address form the longest run, at the start. |
| Cloudflare.LateZeroRunPeer | src/main/kotlin/dev/zihad/cloudflarektor/CloudflareFeature.kt:27-29 | A peer whose folded zero run starts at the fifth group or later gets its stored `toString` text, whatever the header and lists say. |
| Cloudflare.OverlongRightHalfPeer | src/main/kotlin/dev/zihad/cloudflarektor/CloudflareFeature.kt:17-19 | Text with more than eight groups after its "::" passes `validate` but makes `IP.parse` throw. `storeIp` gives null, and the raw remote host is the result. |
| Examples.DocumentationAddressText | src/main/kotlin/dev/zihad/cloudflarektor/IP.kt:82-84 | 2001:db8:0:0:0:0:2:1 prints as "2001:db8::2:1". |
| Examples.PaddedFirstGroupText | src/main/kotlin/dev/zihad/cloudflarektor/IP.kt:82-84 | 1:0:0:1:0:0:0:1 prints as "0001:0:0:1::1": the second, longer run is folded, and the first group keeps its padding. |
| Examples.UnspecifiedAbbreviation | src/main/kotlin/dev/zihad/cloudflarektor/IP.kt:195-247 | "::" abbreviates to "::". |
| Examples.UnspecifiedGroups | src/main/kotlin/dev/zihad/cloudflarektor/IP.kt:160-191 | "::" normalizes to eight "0000" groups. |
| Examples.OverlappingHalves | src/main/kotlin/dev/zihad/cloudflarektor/IP.kt:175-183 | 1:2::3:4:5:6:7:8:9 is accepted, and the seven groups after the "::" overwrite the second group from before it. |
| Examples.LateRunPeerExample | src/main/kotlin/dev/zihad/cloudflarektor/CloudflareFeature.kt:27-29 | A peer sending 2001:db8:1:2:0:0:0:1 ends up as "2001:db8:1:2::1". |
| Examples.TrustedPeerExample | src/main/kotlin/dev/zihad/cloudflarektor/CloudflareFeature.kt:22-26 | A request from 173.245.48.5 with the list ["173.245.48.0/20"] takes its client IP from the header. |
| Numerals.ParseNatText | src/main/kotlin/dev/zihad/cloudflarektor/IP.kt:253 | `toString(radix)` of a non-negative Int reads back with `toInt(radix)`. |
| Numerals.NatTextValue | src/main/kotlin/dev/zihad/cloudflarektor/IP.kt:83 | The digits `toString(radix)` writes have the value printed. |
| Numerals.HexTextLength | src/main/kotlin/dev/zihad/cloudflarektor/IP.kt:83 | A 16-bit value prints in one to four hexadecimal digits. |
| Strings.SplitJoin | src/main/kotlin/dev/zihad/cloudflarektor/IP.kt:253 | Splitting a join on a one-character separator that no piece contains gives the pieces back. |
| Strings.JoinSplit | src/main/kotlin/dev/zihad/cloudflarektor/IP.kt:253 | Joining the pieces of a one-character split gives the text back. |
| Strings.ReplaceJoin | src/main/kotlin/dev/zihad/cloudflarektor/IP.kt:197-200 | When the separator can occur in the pattern only as its first character, `replace` on a join is the join of the pieces replaced one by one, each piece after the first together with the separator in front of it. |

## Left out

- `CloudflareFeature.install` (CloudflareFeature.kt:41-65) is not part of this model. It fetches the two lists over HTTP and registers the interceptor. The lists are parameters here, so the model does not reproduce that `install` passes the IPv4 list for both lists (lines 55-58).
- The ktor request and attribute API are not modelled. The remote host and the `CF-Connecting-IP` header are inputs, and the value put under the attribute key is the result.
- The Java regex engine is not modelled. The two patterns (`(\d+)` with dots, and `[a-f0-9]{1,4}` ignoring case) are character predicates over ASCII.
- `toInt` and `toLowerCase` are ASCII-only here. Non-ASCII Unicode digits, which `Character.digit` accepts, and locale-dependent lower-casing are not modelled.
- The exception class hierarchy is collapsed to two kinds: those `IP.parse` swallows and those that escape it.
- Object identity is modelled only where it decides a result. An entry without '/' never equals the address, and a `Range` is identified by its position in the table.
- GapValidates: stated for lower-case text with at most three groups before the "::", not for every text `validate` accepts.
- GapNormalizes: stated for the same lower-case texts as GapValidates.
- OverlongRightHalfPeer: stated for lower-case text with at most three valid groups before the "::".
- IPv6Peer: stated for a remote host that is the full uncompressed hexadecimal text of the address, not for every IPv6 spelling.
- LateZeroRunPeer: stated for a remote host that is the full uncompressed hexadecimal text of the address.
- StoreIpHexText: stated for the full uncompressed hexadecimal text of the address.
- TrustedIPv4Peer: stated for entries written `a.b.c.d/n` in decimal without leading zeros, the form Cloudflare publishes.
