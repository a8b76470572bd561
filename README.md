# Access-control filter for a reverse-proxy host, in Dafny

This project models a reverse-proxy middleware plugin that admits or refuses each HTTP request.
The filter is configured with four settings: a list of disallowed client addresses, an allowed subnet,
a required header name and a required header value. `New` turns that configuration into a filter
instance. The list of disallowed addresses becomes a set, and the other settings are copied unchanged.
For every request, `ServeHTTP` cuts the remote address at its last `:`. It refuses the request when
the remaining address is in the set. Otherwise it forwards the request when the required header
carries the required value, and refuses it in all other cases. The subnet setting is accepted and has
a default, but its check is a TODO in the source, so it has no effect.

The model has two modules:

- `Strings` (`strings.dfy`): `LastIndex`, the string search the filter uses to find the port separator.
- `Plugin` (`plugin.dfy`): the configuration and its defaults (`CreateConfig`), construction (`New`,
  an imperative loop specified by the function `Build`), port stripping (`StripPort`), and the
  per-request decision (`Decide`, whose two-valued result `Forward | Forbidden` stands for calling the
  next handler or answering 403).

The header lookup is a parameter of `Decide`: a total function from header name to value. It returns
`""` for a header that is absent, as Go's `Header.Get` does.

Some behaviours of the code are easy to misread:

- Port stripping is not IPv6-aware. `[2001:db8::1]:443` becomes `[2001:db8::1]`, with the brackets
  kept, and the port-less `::1` becomes `:`. Stripping is not idempotent: `a:b:c` becomes `a:b` and
  then `a` (`StripPortExamples`, `StripPortIdempotentIff`).
- An address with nothing before its last `:`, such as `:8080`, strips to `""`. Such a request is
  refused when `""` is in the configured list (`StripPortEmptyHost`, `ConfiguredAddressForbidden`).
- A request without the required header is not always refused. When the required value is `""`, a
  missing header matches it and the request is forwarded (`NoHeadersMatchEmptyValue`).
- Construction validates nothing. An empty header name or an unparsable subnet is accepted, and `New`
  never returns an error (`New`).
- The subnet plays no part in the decision (`SubnetIrrelevant`).

## Model

| member | source | states |
|---|---|---|
| `Strings.LastIndex` | main.go:53 | the result is -1 exactly when the separator does not occur; otherwise the separator is at that index and nowhere after it |
| `Plugin.CreateConfig` | main.go:18-25 | the defaults are an empty list of disallowed addresses, subnet `10.0.0.0/8`, header name `X-Custom-Header` and header value `ExpectedValue` |
| `Plugin.Blocklist` | main.go:37-40 | an address belongs to the set built from a list exactly when it occurs in the list |
| `Plugin.Build` | main.go:41-48 | the built filter blocks exactly the listed addresses and carries the subnet, header name and header value over unchanged |
| `Plugin.StripPort` | main.go:52-55 | an address without `:` is returned unchanged; otherwise the result is a strict, shorter prefix of the address, followed by a `:`, and the removed suffix holds no other `:` |
| `Plugin.StripHostPort` | main.go:52-55 | for any host and any port without `:`, stripping `host:port` gives back the host exactly, with brackets and inner colons kept |
| `Plugin.StripPortIdempotentIff` | main.go:53-54 | stripping twice equals stripping once if and only if the first result has no `:` left |
| `Plugin.StripPortExamples` | main.go:52-55 | `[2001:db8::1]:443` gives `[2001:db8::1]`, `::1` gives `:`, `a:b:c` gives `a:b` and, stripped again, `a` |
| `Plugin.StripPortEmptyHost` | main.go:52-55 | an address made of `:` and a colon-free port, such as `:8080`, strips to the empty string |
| `Plugin.New` | main.go:36-49 | never returns an error; an address is in the built set exactly when it occurs in the configured list; subnet, header name and header value are copied unchanged; the result equals `Build(config)` |
| `Plugin.BlocklistDuplicate` | main.go:38-39 | appending an address that is already listed leaves the set unchanged |
| `Plugin.BlocklistSize` | main.go:37-40 | the set never has more elements than the list, and has exactly as many if and only if the list has no duplicates |
| `Plugin.Decide` | main.go:51-73 | a forwarded request carried the required header value, and its stripped address is not blocked |
| `Plugin.BlockedIsForbidden` | main.go:57-61 | a request whose stripped address is blocked is refused, whatever its headers are, the correct one included |
| `Plugin.MatchingHeaderForwards` | main.go:66-70 | a request from an unblocked address whose header value equals the required value is forwarded |
| `Plugin.ForwardIff` | main.go:57-72 | a request is forwarded if and only if it is unblocked and the header matches; it is refused if and only if it is blocked or the header differs; no request gets both outcomes |
| `Plugin.ConfiguredAddressForbidden` | main.go:36-61 | a request whose stripped address occurs in the configured list is refused by the filter built from that configuration, for every header map |
| `Plugin.SubnetIrrelevant` | main.go:63-64 | two configurations that differ only in the subnet setting decide every request alike |
| `Plugin.DefaultPolicy` | main.go:18-25 | the defaults have an empty list and subnet `10.0.0.0/8`; under them nothing is blocked, and a request is forwarded exactly when `X-Custom-Header` reads `ExpectedValue` |
| `Plugin.NoHeadersMatchEmptyValue` | main.go:67 | when the required value is empty, a request from an unblocked address that carries no headers is forwarded |
| `Plugin.BlockedClientScenario` | main.go:52-61 | with `1.2.3.4` listed, a request from `1.2.3.4:5555` is refused even though it carries the correct header |

## Left out

- The HTTP plumbing is not modelled: the response writer, the `Forbidden` body written by `http.Error`, the 403 status and the call to the next handler. Only the two-valued outcome is kept.
- The `context.Context` argument, the downstream handler, the instance `name` and the JSON tags of `Config` are left out, because none of them affects a decision.
- Go's canonicalisation of header names inside `Header.Get` is library code. The lookup is modelled as an opaque total function of the configured name.
- Subnet parsing and containment are not modelled, because the source does not implement them.
- Strings are sequences of characters, not bytes. The cut at `:` is the same, because `:` is a single byte in UTF-8 and never occurs inside a multi-byte character.
- `New`: the configuration is taken as a value. Go's `New` receives a `*Config` and dereferences it at main.go:38, so it would panic on a nil pointer. The host never passes nil, and the model does not represent that case.
- Requests are not modelled as concurrent. The host owns concurrency, and the filter only reads its fields.
