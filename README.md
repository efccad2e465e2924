# DELU Minecraft client: block states, 2D vectors and the HTTP interface client

This project models the core of a C# client for the GDMC HTTP interface mod of a
Minecraft server:

- **Block states** (`src/Utils/Block.cs`): a namespaced name with an ordered list of
  `(key, value)` properties, serialised as `name[k=v,k=v,]` by `ToMcString` and read
  back by `Parse` with three regular expressions. Module `Blocks` (`Block.dfy`).
- **`Vector2Int`** (`src/Utils/Vector2Int.cs`): a mutable struct of two C# `int`s (`Z`
  first, `X` second), copied by value, with componentwise operators, `Min`, `Max`, `Manhattan` and
  `ToString`. Module `Vectors` (`Vector2Int.dfy`).
- **`HttpApi`** (`src/HttpApi.cs`): how `GetChunks`, `GetBuildArea` and `PutBlocks`
  build their requests and treat the responses, and the optional retention of the raw
  chunk data. Module `Http` (`HttpApi.dfy`).

Supporting modules: `Wrappers` (Option/Result standing in for nulls and exceptions),
`Int32Math` (C# `int` semantics: unchecked wrap-around, truncating division,
`Math.Abs`, `Math.Min`/`Max`, `Math.Clamp`) and `Text` (the decimal text C# produces
for an `int`, with a parser that inverts it, and splitting at a separator, used to read
request paths back).

How the model is shaped:

- `ToMcString` is a method with the source's append loop; `Parse` is a method that strips
  spaces, runs the scanners and fills a fresh array slot by slot. Both are proved against
  specification functions (`McString`, `Parsed`), and the round trip is proved on those.
- The regular expressions are explicit scanners over ASCII letters, digits and `_`:
  `\bminecraft:[\w_]+` is `FirstNameMatch`/`MatchName` (leftmost match, greedy word,
  empty string when nothing matches) and `([\w_]+)=([\w_]+)` is `PairMatchAt`/`PairMatches`
  (leftmost, non-overlapping, left to right).
- The bracket test of `Parse` compares a `Match` object with `null`, which never holds, so
  the whole space-stripped text is always scanned and the property array is never null.
- `Vector2Int` arithmetic wraps modulo 2^32 as C#'s default unchecked arithmetic does, and
  `Math.Abs(int.MinValue)` throws, so `Manhattan` returns an `Option`. Its laws are proved
  on every input where they survive overflow (symmetry, zero exactly on equal vectors,
  `(a + b) - b == a`), and non-negativity where the distance fits in an `int`.
- The network is a function from `Request` to `Response` (status code and opaque bytes).
  The NBT sniff and decoder, the reading of a body as text, and the JSON deserialiser are
  functions supplied by the caller. The decoder is a partial function whose precondition is
  known to hold only for content the sniff accepts, so the verifier checks that it is never
  called on rejected content.
- Request paths are proved to read back (`ReadQuery`) to the endpoint and the integer
  parameters in order, so the exact values and their order in the query are stated.

Four behaviours of the code are kept as they are: `GetBuildArea` has no separate 404 case
(404 is reported like any other status), `Parse` returns an empty name rather than failing
when no name matches, it returns an empty array rather than null when there are no
brackets, and `PutBlocks` only takes a pre-formatted text body.

## Model

| member | source | states |
|---|---|---|
| `Blocks.McString` | src/Utils/Block.cs:24-36 | The text starts with the name; it is exactly the name when the array is null or empty, and otherwise the name is followed by a section that opens with `[` and closes with `]`. |
| `Blocks.ToMcString` | src/Utils/Block.cs:24-36 | The append loop produces exactly `McString(b)`: the name, then, when the array is non-null and non-empty, `[`, `k=v,` per pair in array order (last comma included) and `]`. |
| `Blocks.McStringWithoutProperties` | src/Utils/Block.cs:26-35 | With a null or empty property array the text is exactly the name, with no brackets. |
| `Blocks.PropertiesTextAround` | src/Utils/Block.cs:28-33 | The property section is the pairs before position i, then `k=v,` for pair i, then the pairs after it: pairs in order, each followed by a comma. |
| `Blocks.StripSpaces` | src/Utils/Block.cs:46 | The result holds no space; its multiset of characters is the input's with spaces removed (tabs and newlines survive); an input without spaces is returned unchanged. |
| `Blocks.StripSpacesAppend` | src/Utils/Block.cs:46 | Stripping distributes over concatenation, so the surviving characters keep their order. |
| `Blocks.WordRun` | src/Utils/Block.cs:48-52 | The greedy `[\w_]+` run at a position: all word characters, ending at the end or at a non-word character. |
| `Blocks.FirstNameMatch` | src/Utils/Block.cs:48-55 | Returns the leftmost position at or after i where `\bminecraft:` followed by a word character matches, and no earlier one; `None` only when no position matches. |
| `Blocks.NameAt` | src/Utils/Block.cs:48-55 | The value of a name match at a position: `minecraft:` and a non-empty word, taken from the text at that position, and ending at the end or at a non-word character (the greedy run). |
| `Blocks.MatchName` | src/Utils/Block.cs:48-55 | The matched name is empty exactly when no position matches; otherwise it is `minecraft:` followed by a non-empty word, and it is the text at the leftmost matching position, extended over the whole word after the namespace. |
| `Blocks.PairMatchAt` | src/Utils/Block.cs:52 | A match of `([\w_]+)=([\w_]+)` at a position has word key and value, covers exactly the text `key=value` there and ends where the value's word ends; and a match exists whenever a word at the position is followed by `=` and a word character. |
| `Blocks.PairMatches` | src/Utils/Block.cs:52-64 | Defined as the leftmost match, after which the scan resumes at its end (otherwise it moves one character on); every pair found is two words, and there are at most a third as many as remaining characters. |
| `Blocks.PairMatchesEmpty` | src/Utils/Block.cs:52-64 | The scan finds no pair exactly when the pair pattern matches at no position from `i` on, so the property array has length 0 exactly then. |
| `Blocks.Parse` | src/Utils/Block.cs:43-73 | Returns `Parsed(block)`: name of the space-stripped text, and an always-present array holding every pair match, slot i being match i. |
| `Blocks.Parsed` | src/Utils/Block.cs:43-73 | What `Parse` yields: the array is never null (the `== null` test never fires), each pair is two words, and the name is empty or `minecraft:` plus a word. |
| `Blocks.ParseMcStringRoundTrip` | src/Utils/Block.cs:24-73 | For a `minecraft:`+word name and word keys and values, parsing the serialised text gives back the name and the pairs in order; a null array comes back empty. |
| `Vectors.Constants` | src/Utils/Vector2Int.cs:26-50 | The constructor takes Z then X; `Zero` = (0,0), `One` = (1,1), `AxisZ` has Z=1, `AxisX` has X=1, and `AxisZ + AxisX == One`. |
| `Vectors.NegateAsWritten` | src/Utils/Vector2Int.cs:57-62 | Unary minus as written returns its argument on every input: Z is negated twice and X is not touched. |
| `Vectors.NegateOneIsOne` | src/Utils/Vector2Int.cs:57-62 | Concretely, `-One` is `One` and not (-1, -1). |
| `Vectors.Negate` | src/Utils/Vector2Int.cs:52-62 | The negation the operator documents: `v + Negate(v) == Zero`, and both components negated when neither is `int.MinValue`. |
| `Vectors.NegateInvolutive` | src/Utils/Vector2Int.cs:52-62 | The documented negation applied twice gives the vector back. |
| `Vectors.Equal` | src/Utils/Vector2Int.cs:70-73 | `==` holds exactly when the two vectors are equal in both components. |
| `Vectors.NotEqual` | src/Utils/Vector2Int.cs:81-84 | `!=` holds exactly when the vectors differ. |
| `Vectors.NotEqualIsNotEqual` | src/Utils/Vector2Int.cs:70-84 | `!=` is exactly the negation of `==`. |
| `Vectors.Add` | src/Utils/Vector2Int.cs:121-124 | Each component is the exact sum when that fits in an `int`, and is always congruent to it modulo 2^32. |
| `Vectors.Sub` | src/Utils/Vector2Int.cs:132-135 | Each component is the exact difference when that fits, and is always congruent to it modulo 2^32. |
| `Vectors.SubAddCancel` | src/Utils/Vector2Int.cs:121-135 | `(a + b) - b == a` for all vectors, overflow included. |
| `Vectors.AddSubCancel` | src/Utils/Vector2Int.cs:121-135 | `(a - b) + b == a` for all vectors, overflow included. |
| `Vectors.AddCommutes` | src/Utils/Vector2Int.cs:121-124 | `+` is commutative and `Zero` is its identity. |
| `Vectors.Min` | src/Utils/Vector2Int.cs:148-151 | Each component is at most both inputs' components and equal to one of them. |
| `Vectors.Max` | src/Utils/Vector2Int.cs:159-162 | Each component is at least both inputs' components and equal to one of them. |
| `Vectors.MinMaxLaws` | src/Utils/Vector2Int.cs:148-162 | `Min` and `Max` are commutative, and `Min(a, a) == Max(a, a) == a`. |
| `Vectors.MinMaxAreBounds` | src/Utils/Vector2Int.cs:148-162 | `Min` is the greatest componentwise lower bound and `Max` the least upper bound. |
| `Vectors.Manhattan` | src/Utils/Vector2Int.cs:164-167 | When the true distance `abs(dZ) + abs(dX)` fits in an `int`, the result is exactly that distance. |
| `Vectors.ManhattanSymmetric` | src/Utils/Vector2Int.cs:164-167 | `Manhattan(a, b) == Manhattan(b, a)` on every input, wrap-around and the `Math.Abs` exception included. |
| `Vectors.ManhattanZeroIffEqual` | src/Utils/Vector2Int.cs:164-167 | `Manhattan(a, b)` is 0 exactly when `a == b`, on every input. |
| `Vectors.ManhattanNonNegative` | src/Utils/Vector2Int.cs:164-167 | Without overflow the distance is defined and non-negative. |
| `Vectors.ToString` | src/Utils/Vector2Int.cs:110-113 | The text is parenthesised and reads back (`ReadVector`) to the vector: Z's text, `, `, X's text. |
| `Vectors.ToStringInjective` | src/Utils/Vector2Int.cs:110-113 | Distinct vectors print differently. |
| `Int32Math.DivBy16` | src/HttpApi.cs:121-122 | Truncating division: the remainder `c - 16 * r` lies strictly between -16 and 16 and has the sign of `c`. |
| `Int32Math.DivBy16VersusFloor` | src/HttpApi.cs:121-122 | It agrees with floor division except on negative non-multiples of 16, where it is one more. |
| `Text.IntTextRoundTrip` | src/HttpApi.cs:129 | The decimal text interpolated for an `int` reads back to that `int`. |
| `Http.ClampCount` | src/HttpApi.cs:125-126 | The clamped count is never negative; negative counts become exactly 0 and the others are unchanged. |
| `Http.QueryPathRoundTrip` | src/HttpApi.cs:129 | A query path `endpoint?k=v&...` reads back to the endpoint and the parameters in order. |
| `Http.ChunksPathIsQueryPath` | src/HttpApi.cs:129 | The interpolated chunks path is the query path of `x`, `z`, `dx`, `dz` in that order. |
| `Http.ChunksPath` | src/HttpApi.cs:129 | The path of `GetChunks` is `chunks` with the query parameters `x`, `z`, `dx`, `dz` in that order, each written as its decimal text. |
| `Http.ChunksRequest` | src/HttpApi.cs:112-129 | `GetChunks` sends a GET accepting `application/octet-stream` to `chunks` with x and z the position's components divided by 16 with truncation, and dx, dz clamped to be non-negative. |
| `Http.ChunksRequestExample` | src/HttpApi.cs:121-129 | 31 gives chunk 1, -1 gives 0, -17 gives -1, and position (Z -17, X 31) with counts -5, 3 gives `chunks?x=1&z=-1&dx=0&dz=3`. |
| `Http.HttpApi.constructor` | src/HttpApi.cs:81-87 | The object remembers the retention flag and starts with no raw data. |
| `Http.HttpApi.GetChunks` | src/HttpApi.cs:112-150 | Non-200 fails with the status; content the NBT sniff rejects fails before the decoder is reached; a decoder failure fails; raw data is replaced only in retention mode after a successful decode and is otherwise unchanged. |
| `Http.BuildAreaRequest` | src/HttpApi.cs:162-168 | The build-area request is a GET of the absolute URL `http://localhost:9000/buildarea` accepting `application/json`. |
| `Http.GetBuildArea` | src/HttpApi.cs:159-180 | Fails with the status exactly when it is not 200 (404 included); on 200 it succeeds exactly when the body deserialises, with the deserialised extents, and fails with the JSON error when it does not. |
| `Http.BlocksPathIsQueryPath` | src/HttpApi.cs:206 | The interpolated blocks path is the query path of `x`, `y`, `z` in that order. |
| `Http.BlocksPath` | src/HttpApi.cs:206 | The path of `PutBlocks` is `blocks` with the query parameters `x`, `y`, `z` in that order, each written as its decimal text. |
| `Http.PutBlocksRequest` | src/HttpApi.cs:194-207 | `PutBlocks(blocks, startX, startZ, startY)` sends the body verbatim as `text/plain` to `blocks` with query x = startX, y = startY, z = startZ. |
| `Http.PutBlocks` | src/HttpApi.cs:194-215 | Succeeds exactly on status 200, with the body read as text; any other status fails with that status. |
| `Http.PutBlocksExample` | src/HttpApi.cs:194-207 | Two edits at origin x -7, y 5, z 10 go out unchanged to `blocks?x=-7&y=5&z=10`. |
| `Http.OnlyStatusOkSucceeds` | src/HttpApi.cs:171-172 | A 404 from the build-area endpoint ("no build area set") gives the same `HttpRequestError` as any other status. |

## Left out

- The shared static `HttpClient`, `async`/`await`, and the mutation of its default `Accept` header before each call: network I/O and a concurrency hazard. Each request carries its `Accept` value instead. The model's server always answers, so transport failures do not appear in `GetChunks`, `GetBuildArea` or `PutBlocks`: a connection error from `GetAsync`/`PutAsync` (`HttpRequestException`) and the client's default 100-second timeout (`TaskCanceledException`).
- The constructor's assignment of the static client's base address: static shared state of the client library. `HttpClient.BaseAddress` cannot be set once the client has sent a request, and the client is shared by every instance, so in .NET any `new HttpApi(...)` made after the first request on any instance throws `InvalidOperationException`; the model's constructor always succeeds.
- `NbtDocument.IsNbtDocument` and `NbtDocument.LoadDocument` (Cyotek NBT library): supplied as a predicate and a partial function; the stream's read position is not modelled.
- `JsonSerializer.Deserialize<BuildAreaExtents>` and `ReadAsStringAsync`: supplied as functions; the six-field record is kept as a datatype.
- The field `_mcWorldData` and the constant `_commandsEndpoint`: declared but never used by the modelled operations.
- `Vector2Int` division by a `float`: floating point.
- `Vector2Int.GetHashCode` and `Equals(object)`: runtime type tests and hashing, with nothing to state beyond `==`.
- .NET's Unicode `\w`: the model uses ASCII letters, digits and `_`.
- The C# default arguments (`Block`'s null properties, `Vector2Int`'s `(z = 0, x = 0)`, `PutBlocks`' zero coordinates, the constructor's `false`): callers of the model pass every argument.
- A null string passed to `Parse` (a `NullReferenceException`) or as the body of `PutBlocks` (`new StringContent(null)` throws `ArgumentNullException`): strings are values here.
- `Vector2Int` as a mutable struct copied by value: the model takes it as a datatype value, so an assignment to a field of a copy (unary minus, `startPos.X /= 16` in `GetChunks`) becomes a functional update `v.(z := …)`. In-place updates of a stored vector (an array slot, a field of an object) are not captured.
- Null strings inside a `Block`: the model's name, keys and values are never null. In C# a null name makes `ToMcString` return null without properties and text starting `[` with them, and a null key or value is written as the empty string.
- The sharing of `Block`'s public property array: the model takes the array as a value, so it does not capture a caller changing the array's slots after the block was built.
- Culture-dependent number formatting: `Text.IntText` writes a negative number with `-`, as the invariant culture does. Interpolation uses the current culture, and under ICU some cultures (for example sv-SE and nb-NO) write U+2212 instead; the chunks and blocks paths and `Vector2Int.ToString` would then differ for negative values.
- src/Program.cs: a console entry point that is not part of this model.
- Vectors.ManhattanNonNegative: non-negativity is stated only where the true distance fits in an `int`, because the wrapped sum can be negative otherwise.

## Findings

| source | as written | input that shows it | evidently intended | confidence | as-written member | corrected member |
|---|---|---|---|---|---|---|
| src/Utils/Vector2Int.cs:57-62 | unary `-` negates `Z` twice and never touches `X`, returning its argument | `-One` is `(1, 1)` | both components negated (the operator is documented as "Negated Vector") | high; not executed | `Vectors.NegateAsWritten` (shown by `Vectors.NegateOneIsOne`) | `Vectors.Negate` (`v + Negate(v) == Zero`) |
