# traefik-real-ip in Dafny

A model of the client-IP middleware of the Traefik plugin
`soulbalz/traefik-real-ip`, with proofs of what it does to a request's
headers.

The middleware has three parts:

- **Trust-set construction.** `New` turns the configured list of CIDR texts
  into a list of excluded networks. It fails on the first text that is not
  valid CIDR notation.
- **The exclusion check.** `excludedIP` treats a token that does not parse
  as an address as excluded, which is the fail-safe default. An address is
  excluded when some configured network contains it.
- **The resolver.** `ServeHTTP` splits `X-Forwarded-For` at commas and walks
  the tokens from the right. It takes the first trimmed token that is not
  excluded. When there is none, it takes the raw `Cf-Connecting-Ip` value and
  also writes that value into `X-Forwarded-For`. The result always
  overwrites `X-Real-Ip`.

The files follow the Go code and the library calls it makes:

- `wrappers.dfy` (`Wrappers`): `Option` and `Result`.
- `seqs.dfy` (`Seqs`): `MapWithResult`, the "apply in order, stop at the
  first error" loop that `New` is an instance of.
- `strings.dfy` (`Strings`): `strings.Split` with a one-character separator,
  with `Join` as its inverse, and `strings.TrimSpace` over Go's
  `unicode.IsSpace` set.
- `decimal.dfy` (`Decimal`): decimal numerals as Go's address parser reads
  them.
- `net.dfy` (`Net`): IPv4 `net.ParseIP`, `net.ParseCIDR` and
  `IPNet.Contains`. An address is a number below 2^32, and a network is a
  masked base address with a prefix length of at most 32.
- `http.dfy` (`Http`): request headers as a map from canonical name to
  value. `Get` returns `""` for an absent name, and `Set` replaces a value.
- `real_ip.dfy` (`RealIp`): `New`, `excludedIP` and `ServeHTTP` (up to the
  hand-off to the next handler), plus the properties the middleware is meant
  to keep.
- `real_ip_examples.dfy` (`RealIpExamples`): the repository's test cases and
  further concrete scenarios, each stated as a lemma.

Modelling choices:

- `ServeHTTP` is a function from a request's headers to the rewritten
  headers.
- The resolver's loop is `RealIp.ScanFrom`, which walks down from the last
  token and stops at the first token that is not excluded.
- The verdict of `excludedIP` on each trimmed token is named by
  `RealIp.Verdicts`. The contracts use it to say "rightmost trusted token"
  (`RightmostTrusted`) and "every token excluded" (`AllExcluded`).

## Model

| member | source | states |
|---|---|---|
| RealIp.New | real_ip.go:36-52 | Construction succeeds exactly when every configured text parses as CIDR. On success there is one network per text, in configuration order, and each is the network its text parses to. On failure the error is the CIDR parse error naming the first text that does not parse, and all earlier texts parse. |
| RealIp.ParseNets | real_ip.go:42-49 | The loop over the configured texts stops at the first text that does not parse and returns that text's error. Otherwise it returns the parsed networks pointwise and in order. |
| Seqs.MapWithResult | real_ip.go:42-49 | Applying a fallible step to each element in order either succeeds with one result per element, or fails with the error of the first element whose step fails, after every earlier step has succeeded. |
| Net.ParseCIDR | real_ip.go:43 | A successful parse yields a canonical network, whose base has no host bits set. A failed parse reports the error kind "CIDR address" together with the input text. |
| Net.ParseCIDROfFormat | real_ip.go:43 | A dotted address, then `/`, then a decimal prefix of at most 32 (leading zeros allowed) parses to the address masked to that prefix. So `127.0.0.1/24` gives the network `127.0.0.0/24`. |
| Net.ParseCIDRShape | real_ip.go:43 | Conversely, every text that parses as CIDR is a canonical dotted address, then `/`, then decimal digits denoting at most 32, and the network is that address masked to that prefix, so it contains the address. |
| Net.Contains | real_ip.go:86 | `IPNet.Contains` on IPv4: an address is in a network when masking both to the prefix gives the same base. Its meaning as an address range is fixed by `Net.ContainsRange`; it has no contract of its own. |
| Net.Mask | real_ip.go:86 | Masking to a prefix gives the greatest multiple of the block size for that prefix that does not exceed the address. |
| Net.ContainsRange | real_ip.go:86 | A canonical network contains exactly the addresses from its base up to, but not including, its base plus the block size for its prefix. |
| Net.ParseIP | real_ip.go:79 | `net.ParseIP` on IPv4: four dot-separated canonical decimal octets, each at most 255, and `None` for anything else. It has no contract of its own; its meaning is fixed by `Net.ParseFormatIP` and `Net.FormatParseIP`, which together make it the exact inverse of the dotted form `FormatIP`. |
| Net.ParseFormatIP | real_ip.go:79 | Writing any address in dotted form and parsing it back gives the same address. |
| Net.FormatParseIP | real_ip.go:79 | Every text that parses as an address is exactly the dotted form of the parsed address. There are no leading zeros, blanks or other spellings. |
| Net.ParsedIPShape | real_ip.go:79 | A text that parses as an address consists of digits and dots only and is at least seven characters long. |
| Decimal.ValueOfFormat | real_ip.go:79 | The decimal numeral written for a number reads back as that number. |
| Decimal.FormatOfValue | real_ip.go:79 | A canonical numeral (no leading zero) is the numeral written for its own value. |
| RealIp.ExcludedIP | real_ip.go:78-92 | A token that does not parse as an address is excluded. An address is excluded exactly when some configured network contains it. |
| RealIp.AnyContains | real_ip.go:85-91 | The loop over the networks answers true exactly when some network in the list contains the address. |
| RealIp.NoNetsExcludeOnlyMalformed | real_ip.go:78-92 | With no configured networks, exactly the tokens that are not addresses are excluded. |
| Strings.Split | real_ip.go:55 | Splitting always yields at least one piece, and no piece contains the separator. |
| Strings.JoinSplit | real_ip.go:55 | Joining the pieces of a split with the separator gives back the original text. So no character of the `X-Forwarded-For` value is lost or invented. |
| Strings.SplitJoin | real_ip.go:55 | Splitting a join of separator-free pieces gives back exactly those pieces. |
| Strings.TrimSpace | real_ip.go:61 | The trimmed token neither starts nor ends with white space. |
| Strings.TrimSpaceInfix | real_ip.go:61 | The trimmed token is a contiguous part of the original, and everything removed before and after it is white space. |
| Strings.TrimSpaceOfTrimmed | real_ip.go:61 | A text that neither starts nor ends with white space trims to itself. |
| RealIp.ForwardedIPs | real_ip.go:55 | The chain is the `X-Forwarded-For` value split at commas, so an absent header is the single token `""`. It has no contract of its own; `Strings.Split`, `Strings.JoinSplit` and `Strings.SplitJoin` fix its tokens. |
| RealIp.RightmostTrustedExists | real_ip.go:59-66 | A chain with some token that is not excluded has a rightmost such token. |
| RealIp.RightmostTrustedUnique | real_ip.go:59-66 | The rightmost token that is not excluded is unique. |
| RealIp.ScanFrom | real_ip.go:58-66 | The loop from token `n - 1` downward returns `""` exactly when every token below `n` is excluded. Otherwise it returns the trimmed rightmost non-excluded token below `n`, which is a well-formed address. |
| RealIp.ScanRealIP | real_ip.go:55-66 | Over the whole chain, the scan is empty exactly when every token is excluded. Otherwise it is the trimmed rightmost non-excluded token, every token to its right is excluded, and it parses as an address. |
| RealIp.WriteRealIP | real_ip.go:68-73 | An empty scan result is replaced by the raw `Cf-Connecting-Ip` value, which is also written into `X-Forwarded-For`, creating that header if it was absent. A non-empty result leaves `X-Forwarded-For` alone: present exactly when it was, with the same value. `X-Real-Ip` is always set, and no other header changes. |
| Http.Set | real_ip.go:70-73 | After `Set`, the header reads the new value, gains at most that one name, and every other header keeps its value. |
| Http.Get | real_ip.go:69 | `Header.Get` (also used at real_ip.go:55): the value of a present name, and `""` for an absent one. It has no contract of its own; `Http.Set` states that a name reads back what was set. |
| RealIp.ServeHTTP | real_ip.go:54-73 | If some chain token is not excluded, `X-Real-Ip` is the rightmost such token, trimmed, it parses as an address, and `X-Forwarded-For` is kept. If every token is excluded, both `X-Real-Ip` and `X-Forwarded-For` become the raw `Cf-Connecting-Ip` value, and `X-Forwarded-For` is present afterwards even if the request lacked it. No other header changes. |
| RealIp.WriteRealIPDropsRealIp | real_ip.go:68-73 | The header rewrite gives the same headers whether or not the request carried an `X-Real-Ip`. |
| RealIp.WriteRealIPIgnoresRealIp | real_ip.go:68-73 | Two requests that differ only in `X-Real-Ip` are rewritten to the same headers. |
| RealIp.ServeHTTPIgnoresRealIp | real_ip.go:54-73 | Two requests that differ only in `X-Real-Ip` give the same result. |
| RealIp.ClientRealIpIgnored | real_ip.go:73 | Whatever `X-Real-Ip` a client sends, the outcome is the one the request would have had without it. |
| RealIp.WriteRealIPTwice | real_ip.go:73 | Writing the same non-empty resolved address twice is the same as writing it once. |
| RealIp.WriteFallbackTwice | real_ip.go:68-71 | Falling back twice is the same as falling back once. |
| RealIp.ServeHTTPStable | real_ip.go:54-73 | Running the middleware again on its own output changes nothing, provided the first pass found a trusted token, or the fallback value read as a chain is all excluded. |
| RealIpExamples.TestConfiguration | real_ip_test.go:13-22 | The test's configuration `127.0.0.1/24` builds the trust set `[127.0.0.0/24]`, the same set that `127.0.0.0/24` builds. |
| RealIpExamples.BadConfiguration | real_ip.go:42-46 | The configuration `127.0.0.1/24, localhost` is refused with the CIDR parse error naming `localhost`. |
| RealIpExamples.Ipv6ConfigurationRefused | real_ip.go:42-46 | The configuration `::1/128` is refused with the CIDR parse error naming it, because only IPv4 addresses are modelled. |
| RealIpExamples.LoopbackNetMembers | real_ip.go:86 | The network `127.0.0.0/24` contains `127.0.0.2` and does not contain `10.0.0.1`. |
| RealIpExamples.TestDontForward | real_ip_test.go:30-35 | With that trust set, the chain `127.0.0.2` and no fallback header give an empty `X-Real-Ip`. |
| RealIpExamples.TestForward | real_ip_test.go:36-41 | The chain `10.0.0.1` gives `X-Real-Ip: 10.0.0.1`. |
| RealIpExamples.TestCfConnectingIp | real_ip_test.go:42-47 | With no chain and `Cf-Connecting-Ip: 10.0.0.1`, both `X-Real-Ip` and `X-Forwarded-For` become `10.0.0.1`. |
| RealIpExamples.AbsentChain | real_ip.go:55-71 | An absent `X-Forwarded-For` is the single empty token. That token is excluded, so the raw fallback value fills both headers. |
| RealIpExamples.SingleExcludedToken | real_ip.go:59-71 | A chain of one excluded address resolves to the raw fallback value. |
| RealIpExamples.SingleTrustedToken | real_ip.go:59-66 | A chain of one trusted address resolves to that address. |
| RealIpExamples.PairScan | real_ip.go:55-68 | In a chain `x, y` where `y` is excluded and `x` is not, the result is `x`, and the chain is kept. |
| RealIpExamples.BackwardScan | real_ip.go:59-66 | The chain `10.0.0.1, 127.0.0.2` skips its trusted-proxy entry and resolves to `10.0.0.1`. |
| RealIpExamples.MalformedTokenSkipped | real_ip.go:79-83 | The chain `10.0.0.1, not-an-ip` skips the token that is not an address and resolves to `10.0.0.1`. |
| RealIpExamples.ExcludedChainFallsBack | real_ip.go:68-71 | The all-excluded chain `127.0.0.2` with `Cf-Connecting-Ip: 10.0.0.1` resolves to `10.0.0.1`, which also replaces the chain. |
| RealIpExamples.SpoofedRealIpReplaced | real_ip.go:73 | A client-sent `X-Real-Ip: 6.6.6.6` is replaced by the resolved `10.0.0.1`. |
| RealIpExamples.NoExclusionsPassThrough | real_ip.go:85-91 | An empty configuration builds an empty trust set, under which the chain `10.0.0.1` resolves to `10.0.0.1`. |
| RealIpExamples.PaddedFallback | real_ip.go:61-73 | A blank-padded fallback value is written as sent, while chain tokens are trimmed. So a second pass over the output resolves to the unpadded address. |
| RealIpExamples.PaddedFallbackKeptRaw | real_ip.go:61-73 | `Cf-Connecting-Ip: " 10.0.0.1"` resolves to `" 10.0.0.1"`, and a second pass resolves that to `10.0.0.1`. So the middleware is not stable under re-application in general. |

## Left out

- The `http.Handler` plumbing is left out because it is host glue with no logic: the call to `next.ServeHTTP`, the response writer, the context and the `name` field.
- The configuration tags and `CreateConfig` are left out because they are serialisation metadata and a trivial constructor. A configuration is just its list of CIDR texts.
- IPv6 is left out: `net.ParseIP` and `net.ParseCIDR` are modelled for IPv4 dotted quads only. IPv6 and IPv4-mapped IPv6 addresses do not parse in the model, so such a chain token counts as excluded, whereas Go would parse it and check it against the networks. Zoned addresses (`fe80::1%lo0`, `1.2.3.4%eth0`) are no divergence: Go's `net.ParseIP` rejects them too, so they are excluded both in Go and in the model. The IPv4/IPv6 length handling in `IPNet.Contains` is left out for the same reason.
- RealIp.New: a configuration naming an IPv6 or IPv4-mapped network (for example `::1/128`) is refused in the model as a CIDR parse error, while Go's `net.ParseCIDR` accepts it and `New` builds a trust set holding it. This follows from the IPv4-only address model above; `RealIpExamples.Ipv6ConfigurationRefused` states the refusal.
- The IP part that `net.ParseCIDR` returns is left out because the middleware discards it.
- Header-name canonicalisation and multi-valued headers are left out: names are taken as already canonical, and each header holds one value, which is what `Header.Get` returns.
- `strings.TrimSpace` works on characters, not UTF-8 bytes. Invalid UTF-8 is not modelled.
- Concurrent requests are left out, because the trust set is read-only once built and each request is handled independently.
- A cap on the number of chain tokens is not modelled, because the source does not implement one (the TODO at real_ip.go:57).
