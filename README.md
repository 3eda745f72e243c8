# webshare: address selection, private-range classification and prefix parsing

webshare serves a directory over HTTP. At start-up it logs the share link
of every IPv4 interface address, marked private or public. It prints a QR
code for each of those addresses whose dotted text starts with one of the
`-q` prefixes. If none does, it prints one for the first public address, if
there is one. This project models the part of `cmd/webshare/main.go` that
decides which links are logged and which are encoded as QR codes, and proves
what that decision means.

- **Prefix parsing** (`Prefixes`, in `prefixes.dfy`) models `parsePrefixes`.
  The `-q` value has its commas replaced by spaces and is then split by
  `strings.Fields` at runs of Unicode white space. The model proves:
  - the result is "split at every comma or white-space character, then drop
    the empty pieces";
  - nothing is lost or reordered: the prefixes, concatenated, are the input
    without its separators;
  - the result is empty exactly when the input is only separators.
- **Private-range classification** (`PrivateRanges`, with `Net` and `Bits`)
  models the package `init`, `setupPrivateIPBlocks` and `isPrivateIP`. The
  table entries are parsed in order; a parse failure is Go's panic and
  becomes a `Failure` naming the entry. The model proves:
  - the built-in table always parses;
  - `(*IPNet).Contains`, a byte-wise masked comparison, is exactly CIDR
    membership (agreement on the top `ones` bits, section 3.1 of RFC 4632);
  - for an IPv4 address, in 4-byte or IPv4-mapped form, `isPrivateIP` holds
    exactly on 127/8, 10/8, 172.16/12, 192.168/16, 169.254/16 and 224.0.0/24.
    The last of these comes from the link-local multicast test, not from the
    table.
- **Selection** (`Selection`, in `selection.dfy`) models the loop in `main`
  over the interface addresses:
  - `PresentLinks` is that loop as an imperative method. Rendering a QR code
    becomes appending the link to `presented`. The per-candidate log line
    becomes appending to `logged`.
  - The method is proved equal to a reference definition, `Selected`: the
    links of the matching candidates in enumeration order; if there are none,
    the link of the first public candidate; otherwise nothing.
  - Lemmas establish the consequences of that definition:
    - exactly the matching candidates are presented, each once;
    - only IPv4 candidates are ever presented;
    - a match suppresses the fallback;
    - distinct addresses give distinct links;
    - the text of a port number reads back to the port;
    - small concrete address lists give the expected outcome for every port.

The code presents one QR code per matching candidate, not one per run. The
`break` at main.go:127 stops the prefix loop after the first prefix that
matches, so a candidate is presented once however many prefixes match it.
It does not stop the loop over the addresses. `Selection.EveryMatchPresented`
shows two candidates in 192.168/16 under the default prefix `192`, both
presented.

## Model

| member | source | states |
|---|---|---|
| `Prefixes.IsSpace` | cmd/webshare/main.go:37 | Definition: `unicode.IsSpace`, the Unicode White_Space characters, which separate the fields of `strings.Fields`. Its meaning is `Prefixes.TokenLength` and `Prefixes.FieldsIsSplitNonEmpty`. |
| `Prefixes.ReplaceCommas` | cmd/webshare/main.go:37 | Same length as the input; every comma becomes a space and every other character is kept. |
| `Prefixes.TokenLength` | cmd/webshare/main.go:37 | The leading run of non-space characters is maximal: every character in it is not white space, and the one after it, if any, is. |
| `Prefixes.Fields` | cmd/webshare/main.go:37 | Every field `strings.Fields` returns is non-empty and holds no white space. |
| `Prefixes.FieldsConcat` | cmd/webshare/main.go:37 | The fields, concatenated, are the input with its white space removed, so nothing is lost or reordered. |
| `Prefixes.FieldsEmptyIff` | cmd/webshare/main.go:37 | `strings.Fields` returns nothing exactly when the input is all white space. |
| `Prefixes.FieldsIsSplitNonEmpty` | cmd/webshare/main.go:37 | `strings.Fields` equals the reference: split at every white-space character, then drop the empty pieces. |
| `Prefixes.SplitReplaceCommas` | cmd/webshare/main.go:37 | Replacing commas by spaces, then splitting at white space, is splitting at commas and white space. |
| `Prefixes.StripReplaceCommas` | cmd/webshare/main.go:37 | Replacing commas by spaces, then removing white space, is removing commas and white space. |
| `Prefixes.ParsePrefixes` | cmd/webshare/main.go:35-39 | Every prefix is non-empty and holds no comma and no white space. |
| `Prefixes.ParsePrefixesIsSplitNonEmpty` | cmd/webshare/main.go:35-39 | parsePrefixes splits at every comma or white-space character and drops the empty pieces, keeping the order. |
| `Prefixes.ParsePrefixesConcat` | cmd/webshare/main.go:35-39 | The prefixes, concatenated, are the input without its separators. |
| `Prefixes.ParsePrefixesEmptyIff` | cmd/webshare/main.go:35-39 | There are no prefixes exactly when the input holds only commas and white space. |
| `Prefixes.SinglePrefix` | cmd/webshare/main.go:35-39 | A non-empty value with no separator is a single prefix. |
| `Prefixes.DefaultPrefix` | cmd/webshare/main.go:24 | The default `-q` value "192" gives the single prefix "192". |
| `Prefixes.CommaThenSpace` | cmd/webshare/main.go:35-39 | For any tokens a, b, c without separators, "a,b c" gives [a, b, c]. |
| `Prefixes.MixedSeparators` | cmd/webshare/main.go:35-39 | "192,10 172" gives ["192", "10", "172"]. |
| `Prefixes.OnlySeparators` | cmd/webshare/main.go:35-39 | The empty string and " ,\t," give no prefix. |
| `Bits.MaskByteIsComplementedShift` | cmd/webshare/main.go:52 | The mask byte that keeps the top k bits is `^(0xff >> k)`, the byte `net.CIDRMask` builds. |
| `Bits.MaskByteBit` | cmd/webshare/main.go:52 | The mask byte that keeps the top c bits has bit j set iff j < c. |
| `Bits.MaskedByteIff` | cmd/webshare/main.go:65 | Two bytes are equal under the mask that keeps their top m bits iff they agree on each of those m bits. |
| `Net.To4` | cmd/webshare/main.go:114 | `To4` succeeds exactly for a 4-byte address or a 16-byte IPv4-mapped one, and then yields its last four bytes. |
| `Net.To4IPv4RoundTrip` | cmd/webshare/main.go:114 | An IPv4 address is recovered by `To4` from its 4-byte form and from its 16-byte mapped form. |
| `Net.CIDRMask` | cmd/webshare/main.go:52 | The mask is `ones` 1 bits followed by 0 bits, `bits` bits in all: bit k, counted from the most significant bit, is set iff k < ones. |
| `Net.CIDRMaskWholeBytes` | cmd/webshare/main.go:52 | A mask byte that lies wholly within the first `ones` bits is 0xff; one that lies wholly after them is 0. |
| `Net.ParseCidr` | cmd/webshare/main.go:52-55 | Parsing fails exactly when the address has neither IPv4 nor IPv6 width or the prefix length is outside 0..width, and then returns the entry. On success the block has the address's width, and it is well formed when the address is 4 bytes or not IPv4-mapped. |
| `Net.Contains` | cmd/webshare/main.go:65 | Definition: the address, in its canonical form, has the block's width and equals the network number on every byte under the mask. Its meaning is `Net.ContainsIffAgreeTop`. |
| `Net.IsLoopback` | cmd/webshare/main.go:61 | Definition: 127/8 for an address with an IPv4 form, otherwise ::1. Its partner is `PrivateRanges.DirectTestsMatchTable`. |
| `Net.IsLinkLocalUnicast` | cmd/webshare/main.go:61 | Definition: 169.254/16 for an address with an IPv4 form, otherwise fe80::/10. Its partner is `PrivateRanges.DirectTestsMatchTable`. |
| `Net.IsLinkLocalMulticast` | cmd/webshare/main.go:61 | Definition: 224.0.0/24 for an address with an IPv4 form, otherwise ffx2::/16 (ff02::/16 with any flag bits). Its IPv4 meaning is `PrivateRanges.LinkLocalMulticastBlock`. |
| `Net.ApplyMask` | cmd/webshare/main.go:52 | Definition: `IP.Mask` inside `net.ParseCIDR`, each byte of the address ANDed with the mask byte. Its meaning is `Net.MaskedEqualIffAgreeTop` and `Net.ContainsIffAgreeTop`. |
| `Net.MaskedEqualIffAgreeTop` | cmd/webshare/main.go:65 | Byte-wise equality under `CIDRMask(ones)` is agreement on the top `ones` bits. |
| `Net.ContainsIffAgreeTop` | cmd/webshare/main.go:65 | `Contains` on the block parsed from addr/ones holds iff the address, in canonical form, has the block's width and agrees with addr on its top `ones` bits. |
| `Net.SameTopBitsSameMembership` | cmd/webshare/main.go:65 | Two addresses that agree on the top `ones` bits are both in the block or both out of it. |
| `PrivateRanges.SetupPrivateIPBlocks` | cmd/webshare/main.go:41-58 | Success iff every entry parses, and then the blocks are the parsed entries in table order. Failure (Go's panic) names the first entry that does not parse. |
| `PrivateRanges.BuiltinTableParses` | cmd/webshare/main.go:42-55 | Every entry of the built-in table parses into a well-formed block, so the panic never happens. |
| `PrivateRanges.PrivateIPBlocks` | cmd/webshare/main.go:28 | There are eight blocks; each is the successful parse of its table entry and is well formed. |
| `PrivateRanges.InitPrivateIPBlocks` | cmd/webshare/main.go:30-32 | The package's init yields exactly `PrivateIPBlocks()`. |
| `PrivateRanges.AnyBlockContains` | cmd/webshare/main.go:64-68 | The scan returns true iff some block contains the address. |
| `PrivateRanges.LoopbackBlock` | cmd/webshare/main.go:43 | An IPv4 address is in 127.0.0.0/8 iff its first octet is 127. |
| `PrivateRanges.TenBlock` | cmd/webshare/main.go:44 | An IPv4 address is in 10.0.0.0/8 iff its first octet is 10. |
| `PrivateRanges.OneSevenTwoBlock` | cmd/webshare/main.go:45 | An IPv4 address is in 172.16.0.0/12 iff it is 172.x with 16 <= x <= 31. |
| `PrivateRanges.OneNineTwoBlock` | cmd/webshare/main.go:46 | An IPv4 address is in 192.168.0.0/16 iff it starts 192.168. |
| `PrivateRanges.LinkLocalBlock` | cmd/webshare/main.go:47 | An IPv4 address is in 169.254.0.0/16 iff it starts 169.254. |
| `PrivateRanges.V6BlocksMissV4` | cmd/webshare/main.go:48-50 | No IPv6 block of the table contains an IPv4 address. |
| `PrivateRanges.UniqueLocalBlock` | cmd/webshare/main.go:50 | Every IPv6 address whose first byte is 0xfc or 0xfd is in fc00::/7. |
| `PrivateRanges.IPv6LoopbackBlock` | cmd/webshare/main.go:48 | An address without an IPv4 form is in ::1/128 iff it is ::1. |
| `PrivateRanges.IPv6LinkLocalBlock` | cmd/webshare/main.go:49 | An address without an IPv4 form is in fe80::/10 iff it has 16 bytes, its first byte is 0xfe and the top two bits of its second byte are 10. |
| `PrivateRanges.TableScanV4` | cmd/webshare/main.go:64-68 | For an IPv4 address, the table scan accepts exactly the five IPv4 blocks. |
| `PrivateRanges.DirectTestsV4` | cmd/webshare/main.go:61 | For an IPv4 address, the loopback, link-local unicast and link-local multicast tests accept exactly 127/8, 169.254/16 and 224.0.0/24. |
| `PrivateRanges.DirectTestsMatchTable` | cmd/webshare/main.go:61 | On every address, IsLoopback accepts exactly what the 127/8 and ::1/128 blocks accept, and IsLinkLocalUnicast exactly what the 169.254/16 and fe80::/10 blocks accept. |
| `PrivateRanges.LinkLocalMulticastBlock` | cmd/webshare/main.go:61 | For an address with an IPv4 form, the link-local multicast test holds iff the address is in the block 224.0.0.0/24, which parses. |
| `PrivateRanges.IsPrivateIP` | cmd/webshare/main.go:60-70 | Definition: the loopback, link-local unicast and link-local multicast tests, then the scan of the parsed table. Its IPv4 meaning is `PrivateRanges.IsPrivateIPv4Iff`; its IPv6 ranges are `PrivateRanges.PrivateV6Ranges`. |
| `PrivateRanges.IsPrivateIPv4Iff` | cmd/webshare/main.go:60-70 | For an address with an IPv4 form, isPrivateIP holds exactly on the reserved IPv4 ranges. |
| `PrivateRanges.PrivateV6Ranges` | cmd/webshare/main.go:60-70 | ::1, fe80::/10 and fc00::/7 addresses are private. |
| `PrivateRanges.PublicExample` | cmd/webshare/main.go:60-70 | 8.8.8.8 is public. |
| `PrivateRanges.PrivateExamples` | cmd/webshare/main.go:60-70 | Representatives of each reserved IPv4 range are private. 172.32.0.1 and 192.169.0.1, just outside two of them, are public. |
| `Selection.DecimalDigits` | cmd/webshare/main.go:119 | The decimal text is non-empty, all digits, and has no leading zero unless it is "0". |
| `Selection.DecimalRoundTrip` | cmd/webshare/main.go:119 | Reading back the decimal text of n gives n. |
| `Selection.FormatInt` | cmd/webshare/main.go:119 | `%d` gives a minus sign and digits for a negative number, and digits only otherwise. The digits are never empty and have no leading zero unless the number is 0. |
| `Selection.FormatIntRoundTrip` | cmd/webshare/main.go:119 | Reading back the text of any port number, negative ones included, gives the number. |
| `Selection.Dotted` | cmd/webshare/main.go:119 | Definition: the four octets in decimal, joined by dots, as `IP.String` prints an IPv4 address. Its meaning is `Selection.DottedInjective` and `Selection.DottedHasNoColon`. |
| `Selection.Link` | cmd/webshare/main.go:119 | Definition: "http://", the dotted address, ":" and the port in decimal. Its meaning is `Selection.LinkInjective`. |
| `Selection.DottedInjective` | cmd/webshare/main.go:119 | Distinct IPv4 addresses have distinct dotted-decimal texts. |
| `Selection.DottedHasNoColon` | cmd/webshare/main.go:119 | The dotted text holds no colon, so the link's ":port" separator is unambiguous. |
| `Selection.LinkInjective` | cmd/webshare/main.go:119 | On the same port, distinct IPv4 addresses have distinct links. |
| `Selection.DottedStart` | cmd/webshare/main.go:124 | The text compared with the prefixes starts with the first octet in decimal, then a dot. |
| `Selection.FirstOctetMatches` | cmd/webshare/main.go:124 | A prefix equal to the first octet's digits matches the address. |
| `Selection.Candidates` | cmd/webshare/main.go:113-114 | Every kept address is an `*IPNet` with an IPv4 form. |
| `Selection.CandidatesByIndex` | cmd/webshare/main.go:113-114 | Candidates keeps every candidate and nothing else, in order: its k-th element is the address at the k-th candidate position. |
| `Selection.MatchingIndices` | cmd/webshare/main.go:112-129 | The positions of the candidates that some prefix matches: each such position once, in increasing order, and no other. |
| `Selection.FirstPublic` | cmd/webshare/main.go:131-135 | The first position holding a public candidate, or None when there is none. |
| `Selection.HasSomePrefix` | cmd/webshare/main.go:123-129 | The prefix loop finds a match iff the address text starts with some prefix. |
| `Selection.Matched` | cmd/webshare/main.go:122-129 | Definition: the links of the candidates that some prefix matches, in enumeration order. Its meaning is `Selection.MatchedByIndex` and `Selection.MatchedSnoc`. |
| `Selection.Fallback` | cmd/webshare/main.go:131-135 | Definition: the link of the first public candidate, if any. Its meaning is `Selection.FirstPublic` and `Selection.FallbackSnoc`. |
| `Selection.Mark` | cmd/webshare/main.go:115-118 | Definition: "private" if isPrivateIP holds, otherwise "public". Its IPv4 meaning is `PrivateRanges.IsPrivateIPv4Iff`. |
| `Selection.LogLine` | cmd/webshare/main.go:119-120 | Definition: the candidate's link, a space, and its mark in brackets, as `log.Printf("%s [%s]")` writes it. Its meaning is `Selection.LogLinesOnePerCandidate`. |
| `Selection.LogLines` | cmd/webshare/main.go:112-120 | Definition: the log lines of the candidates, in enumeration order. Its meaning is `Selection.LogLinesOnePerCandidate` and `Selection.LogLinesSnoc`. |
| `Selection.Selected` | cmd/webshare/main.go:112-143 | Definition: the matched links if there are any, otherwise the first public candidate's link if there is one, otherwise nothing. Its meaning is `Selection.SelectedCases`, `Selection.MatchedByIndex` and `Selection.PresentedAreCandidates`. |
| `Selection.PresentLinks` | cmd/webshare/main.go:105-143 | The links presented are `Selected` of the addresses and the parsed `-q` value. The lines logged are `LogLines`: one per candidate. |
| `Selection.MatchedSnoc` | cmd/webshare/main.go:123-129 | A new address adds its link to the matched links iff it is a candidate that some prefix matches. |
| `Selection.FallbackSnoc` | cmd/webshare/main.go:132-135 | A new address becomes the fallback only if there is none yet and it is a public candidate. |
| `Selection.LogLinesSnoc` | cmd/webshare/main.go:115-120 | A new address adds one log line iff it is a candidate. |
| `Selection.LogLinesOnePerCandidate` | cmd/webshare/main.go:112-120 | There is one log line per candidate, in order, presented or not. Each line is the link with the candidate's private/public mark. |
| `Selection.MatchedByIndex` | cmd/webshare/main.go:112-129 | The k-th matched link is the link of the k-th matching candidate: each matching candidate is presented once, in enumeration order. |
| `Selection.MatchedEmptyIff` | cmd/webshare/main.go:123-129 | No link is matched iff no candidate matches any prefix. |
| `Selection.PresentedAreCandidates` | cmd/webshare/main.go:112-143 | Every presented link is the link of some IPv4 candidate. |
| `Selection.SelectedCases` | cmd/webshare/main.go:140-143 | If some candidate matches, the matched links are presented. If none matches and none is public, nothing is. If none matches, exactly the first public candidate's link is. |
| `Selection.PresentedOnce` | cmd/webshare/main.go:127 | With distinct addresses, no link is presented twice, however many prefixes a candidate matches. |
| `Selection.CandidatesSuffice` | cmd/webshare/main.go:113-114 | Dropping the non-candidates changes neither the matched links nor the fallback. |
| `Selection.OnlyCandidatesMatter` | cmd/webshare/main.go:113-114 | The outcome depends only on the IPv4 candidates. |
| `Selection.MatchBeatsFallback` | cmd/webshare/main.go:112-143 | [10.0.0.5, 8.8.8.8] with "10" presents only 10.0.0.5's link. |
| `Selection.FallbackWhenNoMatch` | cmd/webshare/main.go:140-143 | [8.8.8.8] with "192" presents 8.8.8.8's link as the fallback. |
| `Selection.NothingToPresent` | cmd/webshare/main.go:112-143 | [10.0.0.5] with "192" presents nothing. |
| `Selection.EveryMatchPresented` | cmd/webshare/main.go:112-143 | Two 192.168 candidates under "192" are both presented, in order. |

## Left out

- `loggingHandler` (main.go:72-86), the file server and the HTTP handler: request handling is outside the selection. File opening and stat are I/O.
- `net.InterfaceAddrs` and its fatal error (main.go:92-95): the addresses are an input sequence. An address of a type other than `*net.IPNet` is `OtherAddr`. The mask of an `*IPNet` is not used by the code and is not kept.
- QR rendering and its configuration (main.go:96-102, 125, 142): rendering a link is appending it to the method's `presented` output.
- `log.Printf` (main.go:120): modelled as appending the formatted line to `logged`. Writing it out is I/O.
- Flag parsing (main.go:21-26, 89): `-q` and `-p` are parameters. The port is any integer.
- The server lifecycle (main.go:145-190): listening, the timeout, signal handling and graceful shutdown are concurrent and timed, and are not part of this model.
- Reading the CIDR texts of the table: each entry is given as its address bytes and prefix length. An address text that does not parse is represented by an address of neither 4 nor 16 bytes.
- Go's `net` and `strings` packages are not part of this model. `To4`, `CIDRMask`, `IP.Mask`, `ParseCIDR`, `Contains`, `IsLoopback`, `IsLinkLocalUnicast`, `IsLinkLocalMulticast`, `IP.String` for IPv4, `strings.ReplaceAll`, `strings.Fields` and `strings.HasPrefix` are modelled from their documented behaviour.
- `Net.Contains`: the mask-length adjustments `networkNumberAndMask` makes are not modelled. They matter for blocks built by hand, and for a block `ParseCIDR` builds from an IPv4-mapped literal such as "::ffff:10.0.0.0/104", whose mask Go cuts to its last four bytes. `Contains` requires a well-formed block, which excludes that case. The built-in table has no such entry.
- `PrivateRanges.PrivateV6Ranges`: states only that the three IPv6 ranges are private, not that every other IPv6 address is public. The selection only classifies addresses with an IPv4 form.
- Strings are sequences of Unicode code points. Invalid UTF-8 in the `-q` value is not modelled.
