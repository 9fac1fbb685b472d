# Search-query encoder of get-old-tweets, in Dafny

This project models the query encoder of the `twitter` package
(`twitter/query.go`). A `Query` holds free text and two optional date
bounds, `Since` and `Until`. `Query.Encode` turns it into the one value of
the `q=` request parameter:

- the text is escaped with `url.QueryEscape`;
- the bounds get the prefixes `since:` and `until:` and are copied
  verbatim, without escaping;
- empty fields are dropped;
- the remaining tokens are joined, in the order text, since, until, with
  `url.QueryEscape(" ")`, which is `+`.

`Query.IsEmpty` holds when that encoding is the empty string.

The two library functions the encoder calls are modelled concretely:

- `url.QueryEscape` keeps the unreserved bytes of section 2.3 of RFC 3986.
  It turns a space into `+` and every other byte into `%` plus two upper-case
  hex digits (section 2.1 of RFC 3986).
- `strings.Join` joins the pieces with the separator.

Each has an inverse that undoes it:

- `url.QueryUnescape` undoes the escape. `+` becomes a space, `%` and two
  hex digits of either case become a byte, and a malformed `%` is an error.
- `strings.Split` with a one-byte separator undoes the join, for a
  non-empty list of pieces none of which holds the separator.

Go strings are byte strings. A byte is modelled as the character with the
same code, from 0 to 255 (`Url.Byte`). This lets string literals stand for
byte strings.

Files:

- `wrappers.dfy`: the `Result` type.
- `strings.dfy`: `Join` and `Split`.
- `url.dfy`: `QueryEscape`, `QueryUnescape` and their lemmas.
- `query.dfy`: `Query`, `Encode`, `IsEmpty` and their lemmas.
- `query_examples.dfy`: concrete encodings.

`Encode` is a method that builds the token list with three conditional
appends, as the Go code does. The function `Encoded` specifies it, and the
lemmas are stated about that function. `Query` is a datatype because the Go
struct is a value that `Encode` and `IsEmpty` only read. So "Encode leaves
`Text`, `Since` and `Until` unchanged" holds by construction: the method has
no `modifies` clause, and a value has no state to change.

## Model

| member | source | states |
|---|---|---|
| `Twitter.Encoded` | twitter/query.go:28-45 | The function form of `Encode`, which the lemmas below are about. The encoding starts with the token of the first non-empty field: the escaped text, else `since:` and the bound, else `until:` and the bound, else it is empty. |
| `Twitter.Encode` | twitter/query.go:28-45 | The result equals `Encoded(q)`, so every lemma about `Encoded` applies to it. It is the join with `+` of the tokens: the escaped text, then `since:` and the bound, then `until:` and the bound, each present only when its field is non-empty. It is empty exactly when all three fields are empty. |
| `Twitter.IsEmpty` | twitter/query.go:47-49 | A query is empty exactly when its text and both bounds are empty. This is the same as its encoding being the empty string. |
| `Twitter.EncodedEmpty` | twitter/query.go:31-43 | The encoding is the empty string if and only if all three fields are empty. |
| `Twitter.EmptyQueryEncodesEmpty` | twitter/query.go:28-49 | The all-empty query encodes to the empty string and is empty. |
| `Twitter.TokensShape` | twitter/query.go:31-41 | There is one token per non-empty field, and every token is non-empty. |
| `Twitter.SeparatorIsPlus` | twitter/query.go:43 | The separator, the escape of a single space, is the one byte `+`. |
| `Twitter.EncodedClosedForm` | twitter/query.go:29-43 | The encoding is the present tokens in the order text, since, until. A `+` comes before a token exactly when an earlier token is present. An empty field adds neither a token nor a separator. |
| `Twitter.EncodedLength` | twitter/query.go:31-43 | The length of the encoding is the escaped text, plus the prefixed bounds, plus one separator fewer than the number of non-empty fields (no separator when no field is set). |
| `Twitter.SinceVerbatim` | twitter/query.go:35-37 | A query with only a `Since` bound encodes to `since:` followed by the bound exactly, whatever bytes it holds. |
| `Twitter.UntilVerbatim` | twitter/query.go:39-41 | A query with only an `Until` bound encodes to `until:` followed by the bound exactly. |
| `Twitter.TextOnlyRoundTrip` | twitter/query.go:31-33 | The encoding of a text-only query has the escaped shape. Unescaping it gives back the text exactly. |
| `Twitter.UnreservedTextUnchanged` | twitter/query.go:31-33 | A text-only query whose text has only unreserved bytes encodes to the text unchanged. |
| `Twitter.UnescapeEncoded` | twitter/query.go:28-45 | The round trip of the escape, extended to the whole query: unescaping the encoding gives the unescaped tokens joined by spaces: the text, `since:` and the bound, `until:` and the bound. This needs the verbatim bounds to hold no `%` or `+`. |
| `Twitter.TokensRecovered` | twitter/query.go:28-45 | For a non-empty query whose text has no space and whose bounds have no `+`, splitting the encoding on `+` gives back exactly the token list. |
| `TwitterExamples.ExampleText` | twitter/client_test.go:71-79 | `Query{Text: "foo"}` encodes to `foo`, the `q=foo` of the client's request. |
| `TwitterExamples.ExampleSince` | twitter/query.go:35-37 | `Query{Since: "2020-01-01"}` encodes to `since:2020-01-01`. |
| `TwitterExamples.ExampleEscapedText` | twitter/query.go:31-33 | `Query{Text: "#go"}` encodes to `%23go`: the `#` is percent-encoded. |
| `Url.EscapeByte` | twitter/query.go:32 | One byte becomes one or three bytes. Its escape has the escaped shape, holds a `+` exactly when the byte is a space, and unescapes back to the byte. |
| `Url.QueryEscape` | twitter/query.go:32 | Each input byte becomes one or three output bytes, so the escape is empty exactly when the input is. |
| `Url.QueryUnescape` | twitter/query.go:32 | The unescape of the escape: a successful result is no longer than the input. An error carries one to three bytes starting at the offending `%`. |
| `Url.EscapeRoundTrip` | twitter/query.go:32 | Unescaping the escape of any byte string gives back that string. |
| `Url.EscapeWellEscaped` | twitter/query.go:32 | The escape holds only unreserved bytes, `+`, and `%` triples with two upper-case hex digits. |
| `Url.EscapeUnreserved` | twitter/query.go:32 | A string of unreserved bytes escapes to itself. |
| `Url.EscapePlus` | twitter/query.go:32 | The escape holds a `+` if and only if the input holds a space. |
| `Url.UnescapePlain` | twitter/query.go:35-41 | Bytes with no `%` and no `+` unescape to themselves. |
| `Url.UnescapeAppend` | twitter/query.go:43 | When the first part unescapes without error, unescaping a concatenation unescapes each part separately. |
| `Url.UnescapeJoin` | twitter/query.go:43 | If each piece unescapes to its counterpart, then the pieces joined by `+` unescape to the counterparts joined by spaces. |
| `Strings.Join` | twitter/query.go:43 | No pieces give the empty string. Otherwise the result starts with the first piece. |
| `Strings.Split` | twitter/query.go:43 | The pieces hold no separator, and there is always at least one piece. |
| `Strings.SplitCount` | twitter/query.go:43 | There is one more piece than the string has occurrences of the separator. |
| `Strings.JoinLength` | twitter/query.go:43 | Joining k pieces inserts exactly k - 1 separators. |
| `Strings.JoinSnoc` | twitter/query.go:43 | Appending a piece appends it to the join. A separator comes before it unless it is the first piece. |
| `Strings.JoinNonEmpty` | twitter/query.go:43 | Joining a list that holds a non-empty piece gives a non-empty string. |
| `Strings.SplitJoin` | twitter/query.go:43 | Splitting undoes joining for a non-empty list in which no piece holds the separator. |
| `Strings.JoinSplit` | twitter/query.go:43 | Joining undoes splitting for every string. |

## Left out

- `twitter/ruby_date.go` is not part of this model. Its date parsing is a thin wrapper over Go's `time` package, which is not modelled.
- The HTTP client (`Search`, `SearchAll`), the cursor pagination and the JSON response model are not part of this model. Their source is not among the modelled files. They involve network I/O, headers, an auth token and goroutine/channel streaming. `twitter/client_test.go` is used only for the `q=foo` example.
- Configuration (client version, default auth token) is not part of this model.
- Go's strings are byte strings. The model works on bytes and does no UTF-8 decoding; `url.QueryEscape` also works byte by byte.
- `Twitter.TokensRecovered`: the token list cannot be recovered by splitting on `+` in general. Spaces in the text also become `+`, and the bounds are copied verbatim. So this lemma is stated only for text without spaces and bounds without `+`.
- `Twitter.UnescapeEncoded`: stated only for bounds without `%` or `+`. The bounds are not escaped, so unescaping the encoding would change or reject such bytes.
- How the HTTP client places the encoding into the request URL (it may escape it again) is not part of this model.
