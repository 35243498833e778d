# cli-util-rs: key=value parsing and POST body building

The program is a small HTTP client with two subcommands: `get <url>` and
`post <url> <key>=<value>...`. Most of it is argument-parser declarations and
calls into an HTTP client. This project models the two parts that contain
logic of their own, plus the URL check:

- **Body tokens** (`KvParse.FromStr`, `KvParse.ParseKvPair`). A token is split
  on `=`, as Rust's `str::split` does (`Strings.Split`). The first segment is
  the key and the second is the value. A split always yields at least one
  segment, so only the second pull can fail. It fails when the token has no
  `=`, and the error carries the token (`Failed to parse <token>`). Segments
  after the second are dropped, so `a=b=c` gives key `a` and value `b`.
- **URL argument of `post`** (`KvParse.ParseUrl`). The URL grammar belongs to
  an external crate and is a parameter `isUrl` here. When it accepts, the
  input string is returned unchanged.
- **Request body** (`PostBody.BuildBody`). A loop inserts the pairs, in order,
  into a map that starts empty, so the last pair with a given key wins. The
  function `PostBody.BodyOf` states the same fold. Lemmas prove its key set
  and its last-write-wins values.

Files: `strings.dfy` (splitting and joining on a separator), `kv_pair.dfy`
(token and URL parsing), `post_body.dfy` (the body map).

Only the second `=`-separated segment is kept, so `a=b=c` gives value `b`,
not `b=c` (`KvParse.FromStrDropsThirdSegment`).

## Model

| member | source | states |
|---|---|---|
| `Strings.Split` | src/main.rs:42 | splitting on `=` gives one more segment than there are `=`; no segment contains `=`; joining the segments with `=` gives back the token |
| `Strings.SplitJoin` | src/main.rs:42 | splitting undoes joining for separator-free segments (round trip in the other direction) |
| `Strings.IndexOf` | src/main.rs:42 | finds the first occurrence of the separator: it is there, and nothing before it is the separator |
| `Strings.SegmentAtUnique` | src/main.rs:42-46 | a whole segment is determined by its start offset, so the segment facts about key and value fix both completely |
| `KvParse.FromStr` | src/main.rs:41-48 | a token is rejected iff it has no `=`, and the error carries the token; otherwise the key is the whole segment at the start and the value is the whole segment right after the first `=`, ending at the second `=` or at the end of the token |
| `KvParse.ParseKvPair` | src/main.rs:51-53 | gives exactly what `FromStr` gives; accepts iff the token contains `=` |
| `KvParse.ParseUrl` | src/main.rs:55-58 | succeeds iff the URL parser accepts; on success returns the input string unchanged; on failure reports the input |
| `KvParse.FromStrKeyBeforeFirstSep` | src/main.rs:42-45 | a token with an `=` is accepted, and its key is exactly the text before the first `=` |
| `KvParse.FromStrRoundTrip` | src/main.rs:42-47 | for a token with exactly one `=`, key + `=` + value is the token |
| `KvParse.FromStrOfPair` | src/main.rs:42-47 | writing an `=`-free key and value around `=` and parsing gives them back, also when `=` and arbitrary text follow |
| `KvParse.FromStrDropsThirdSegment` | src/main.rs:46 | `a=b=c` parses to key `a`, value `b` |
| `KvParse.FromStrLoneSeparator` | src/main.rs:42-46 | `=` parses to an empty key and an empty value |
| `KvParse.FromStrRejectsEmpty` | src/main.rs:43-46 | the empty token is rejected with the message `Failed to parse ` |
| `PostBody.BuildBody` | src/main.rs:68-71 | the loop's map equals the in-order fold of inserts; its key set is the set of keys in the pair list; each key holds the value of its last pair |
| `PostBody.BodyOfEmpty` | src/main.rs:68 | an empty pair list gives an empty map |
| `PostBody.BodyKeys` | src/main.rs:69-70 | the body's key set is exactly the set of keys appearing in the pairs |
| `PostBody.BodyLastWins` | src/main.rs:69-70 | a pair that no later pair shares a key with provides that key's value in the body |
| `PostBody.BodyValueFromLastPair` | src/main.rs:69-70 | every key of the body is backed by the last pair with that key, and holds its value |
| `PostBody.BodyDuplicateKeyExample` | src/main.rs:69-70 | pairs `a=1`, `a=2` give exactly the map `{a: 2}` |
| `PostBody.BodyTwoKeysExample` | src/main.rs:69-70 | pairs `name=widget`, `qty=3` give exactly the map with those two entries |
| `PostBody.BodyOfParsedTokens` | src/main.rs:68-71 | when every body token was accepted by the parser, no key or value of the body contains `=` |

## Left out

- Argument-parser declarations (`Opts`, `SubCommand`, `Get`, `Post` and `Opts::parse()`, src/main.rs:6-30, 81). These are macro machinery from an external crate. The crate's usage errors and the order in which it applies the parse hooks to arguments are not modelled. `PostBody.Post` only holds the parsed values.
- Subcommand dispatch in `main` (src/main.rs:83-86). With the parser gone it only picks one of two calls.
- `get` and the sending half of `post` (src/main.rs:61-65, 72-73), `Client::new()` (82) and the async runtime (79). These are network I/O through an external HTTP client.
- JSON encoding of the body (src/main.rs:72). It is done by an external serializer, and the map's key order is unspecified, so no output order is stated.
- Console output in `get` and `print_resp` (src/main.rs:63, 76-78).
- `ParseUrl`: the URL grammar is an external parser, so it is the parameter `isUrl`. The real error carries the URL parser's reason for rejection; the model's error carries only the rejected string.
- The body map's entries borrow the pairs' strings in the source. The model copies the values; nothing observable depends on the difference.
