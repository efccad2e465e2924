/**
 * The client of the game server's HTTP interface: how `GetChunks`, `GetBuildArea`
 * and `PutBlocks` build their requests and how they treat the responses. The network
 * is a function from request to response; the NBT codec, the reading of a response
 * body as text and the JSON deserialiser are functions handed in by the caller.
 */
module Http {
  import opened Wrappers
  import opened Int32Math
  import Text
  import opened Vectors

  type Bytes = seq<bv8>

  const BaseEndpoint: string := "http://localhost:9000/"
  const BlocksEndpoint: string := "blocks"
  const ChunksEndpoint: string := "chunks"
  const BuildAreaEndpoint: string := "buildarea"
  const StatusOK: int := 200

  /** One request, with the `Accept` media type the source sets just before sending it. */
  datatype Request =
    | Get(path: string, accept: string)
    | Put(path: string, accept: string, body: string)

  /** What the server answers: a status code and an opaque body. */
  datatype Response = Response(status: int, content: Bytes)

  /** The exceptions the three operations raise. */
  datatype ApiError =
    | HttpRequestError(status: int)  // any status other than 200
    | NotNbtDocument                 // the NBT sniff rejected the chunk data
    | DecoderFailed                  // the NBT decoder itself failed
    | JsonError                      // the JSON text did not deserialise

  /** The build area as the server reports it; nothing relates the `From` and `To` fields. */
  datatype BuildAreaExtents = BuildAreaExtents(
    xFrom: Int32, yFrom: Int32, zFrom: Int32, xTo: Int32, yTo: Int32, zTo: Int32)

  // ---------------------------------------------------------------------------
  // Query strings
  // ---------------------------------------------------------------------------

  /** `key=value` for each parameter, the value written as C# formats an `int`. */
  function ParamFields(ps: seq<(string, int)>): (fields: seq<string>)
    ensures |fields| == |ps|
  {
    seq(|ps|, i requires 0 <= i < |ps| => ps[i].0 + "=" + Text.IntText(ps[i].1))
  }

  /** `endpoint?k1=v1&k2=v2...` */
  function QueryPath(endpoint: string, ps: seq<(string, int)>): string
    requires |ps| > 0
  {
    endpoint + "?" + Text.Join(ParamFields(ps), '&')
  }

  /** Reads integer parameters back out of `k=v` fields. */
  function ReadParams(fields: seq<string>): Option<seq<(string, int)>>
    decreases |fields|
  {
    if |fields| == 0 then Some([])
    else match Text.SplitFirst(fields[0], '=')
      case None => None
      case Some((k, v)) =>
        match (Text.ParseInt(v), ReadParams(fields[1..]))
        case (Some(n), Some(rest)) => Some([(k, n)] + rest)
        case _ => None
  }

  /** Reads a request path back into its endpoint and integer query parameters. */
  function ReadQuery(path: string): Option<(string, seq<(string, int)>)>
  {
    match Text.SplitFirst(path, '?')
    case None => None
    case Some((endpoint, query)) =>
      match ReadParams(Text.SplitAll(query, '&'))
      case None => None
      case Some(ps) => Some((endpoint, ps))
  }

  predicate PlainKey(k: string) {
    '=' !in k && '&' !in k
  }

  /** One `k=v` field reads back to its key and value. */
  lemma ReadParamField(k: string, v: int)
    requires PlainKey(k)
    ensures Text.SplitFirst(k + "=" + Text.IntText(v), '=') == Some((k, Text.IntText(v)))
    ensures Text.ParseInt(Text.IntText(v)) == Some(v)
  {
    assert k + "=" + Text.IntText(v) == k + ['='] + Text.IntText(v);
    Text.SplitFirstAfter(k, '=', Text.IntText(v));
    Text.IntTextRoundTrip(v);
  }

  lemma {:induction false} ReadParamFields(ps: seq<(string, int)>)
    requires forall j :: 0 <= j < |ps| ==> PlainKey(ps[j].0)
    ensures ReadParams(ParamFields(ps)) == Some(ps)
    decreases |ps|
  {
    if |ps| > 0 {
      var fields := ParamFields(ps);
      var k, v := ps[0].0, ps[0].1;
      assert fields[0] == k + "=" + Text.IntText(v);
      assert fields[1..] == ParamFields(ps[1..]);
      ReadParamField(k, v);
      ReadParamFields(ps[1..]);
      assert ReadParams(fields) == Some([(k, v)] + ps[1..]);
      assert ps == [(k, v)] + ps[1..];
    }
  }

  /** No field holds the `&` that separates them. */
  lemma ParamFieldsHaveNoAmpersand(ps: seq<(string, int)>)
    requires forall j :: 0 <= j < |ps| ==> PlainKey(ps[j].0)
    ensures forall j :: 0 <= j < |ps| ==> '&' !in ParamFields(ps)[j]
  {
    forall j | 0 <= j < |ps|
      ensures '&' !in ParamFields(ps)[j]
    {
      Text.IntTextExcludes(ps[j].1, '&');
    }
  }

  /** Query paths read back to the endpoint and the parameters, in order. */
  lemma QueryPathRoundTrip(endpoint: string, ps: seq<(string, int)>)
    requires |ps| > 0 && '?' !in endpoint
    requires forall j :: 0 <= j < |ps| ==> PlainKey(ps[j].0)
    ensures ReadQuery(QueryPath(endpoint, ps)) == Some((endpoint, ps))
  {
    var query := Text.Join(ParamFields(ps), '&');
    assert QueryPath(endpoint, ps) == endpoint + ['?'] + query;
    Text.SplitFirstAfter(endpoint, '?', query);
    ReadParamFields(ps);
    ParamFieldsHaveNoAmpersand(ps);
    Text.SplitAllJoin(ParamFields(ps), '&');
  }

  // ---------------------------------------------------------------------------
  // GetChunks
  // ---------------------------------------------------------------------------

  /** `Math.Clamp(n, 0, int.MaxValue)`: a count that is never negative. */
  function ClampCount(n: Int32): (r: Int32)
    ensures r >= 0
    ensures n < 0 ==> r == 0
    ensures n >= 0 ==> r == n
  {
    Clamp(n, 0, MaxInt32)
  }

  /** The path interpolated by `GetChunks`: the query path of x, z, dx, dz, in that order. */
  function ChunksPath(x: int, z: int, dx: int, dz: int): (path: string)
    ensures path == QueryPath(ChunksEndpoint, [("x", x), ("z", z), ("dx", dx), ("dz", dz)])
  {
    ChunksPathIsQueryPath(x, z, dx, dz);
    ChunksEndpoint + "?x=" + Text.IntText(x) + "&z=" + Text.IntText(z) +
    "&dx=" + Text.IntText(dx) + "&dz=" + Text.IntText(dz)
  }

  lemma JoinFour(f0: string, f1: string, f2: string, f3: string)
    ensures Text.Join([f0, f1, f2, f3], '&') == f0 + "&" + f1 + "&" + f2 + "&" + f3
  {
    assert [f0, f1, f2, f3][1..] == [f1, f2, f3];
    JoinThree(f1, f2, f3);
  }

  lemma ChunksPathShape(xs: string, zs: string, dxs: string, dzs: string)
    ensures ChunksEndpoint + "?x=" + xs + "&z=" + zs + "&dx=" + dxs + "&dz=" + dzs ==
      ChunksEndpoint + "?" + Text.Join(["x" + "=" + xs, "z" + "=" + zs, "dx" + "=" + dxs, "dz" + "=" + dzs], '&')
  {
    JoinFour("x" + "=" + xs, "z" + "=" + zs, "dx" + "=" + dxs, "dz" + "=" + dzs);
  }

  /** The chunks path interpolation is the query path of its four parameters, in order. */
  lemma ChunksPathIsQueryPath(x: int, z: int, dx: int, dz: int)
    ensures ChunksEndpoint + "?x=" + Text.IntText(x) + "&z=" + Text.IntText(z) +
      "&dx=" + Text.IntText(dx) + "&dz=" + Text.IntText(dz) ==
      QueryPath(ChunksEndpoint, [("x", x), ("z", z), ("dx", dx), ("dz", dz)])
  {
    var ps := [("x", x), ("z", z), ("dx", dx), ("dz", dz)];
    var xs, zs, dxs, dzs := Text.IntText(x), Text.IntText(z), Text.IntText(dx), Text.IntText(dz);
    assert ParamFields(ps) == ["x" + "=" + xs, "z" + "=" + zs, "dx" + "=" + dxs, "dz" + "=" + dzs];
    ChunksPathShape(xs, zs, dxs, dzs);
  }

  /**
   * The request `GetChunks` sends: chunk coordinates are the position's components
   * divided by 16 with truncation, and the counts are clamped to be non-negative.
   */
  function ChunksRequest(startPos: Vector2Int, dx: Int32, dz: Int32): (req: Request)
    ensures req.Get? && req.accept == "application/octet-stream"
    ensures ReadQuery(req.path) == Some((ChunksEndpoint,
      [("x", DivBy16(startPos.x) as int), ("z", DivBy16(startPos.z) as int),
       ("dx", ClampCount(dx) as int), ("dz", ClampCount(dz) as int)]))
  {
    var x, z, cdx, cdz := DivBy16(startPos.x), DivBy16(startPos.z), ClampCount(dx), ClampCount(dz);
    QueryPathRoundTrip(ChunksEndpoint, [("x", x as int), ("z", z as int), ("dx", cdx as int), ("dz", cdz as int)]);
    Get(ChunksPath(x, z, cdx, cdz), "application/octet-stream")
  }

  lemma ChunksPathExample()
    ensures ChunksPath(1, -1, 0, 3) == "chunks?x=1&z=-1&dx=0&dz=3"
  {
    assert Text.IntText(1) == "1" && Text.IntText(-1) == "-1";
    assert Text.IntText(0) == "0" && Text.IntText(3) == "3";
  }

  /** Chunk coordinates truncate toward zero: 31 becomes 1, -1 becomes 0, -17 becomes -1. */
  lemma ChunksRequestExample()
    ensures DivBy16(31) == 1 && DivBy16(-1) == 0 && DivBy16(-17) == -1
    ensures ChunksRequest(Vector2Int(-17, 31), -5, 3).path == "chunks?x=1&z=-1&dx=0&dz=3"
  {
    ChunksPathExample();
  }

  /** The client object: it only remembers whether to keep the raw chunk data, and that data. */
  class HttpApi {
    var shouldStoreRawData: bool
    var rawMcWorldData: Option<Bytes>

    constructor (storeRawData: bool)
      ensures shouldStoreRawData == storeRawData
      ensures rawMcWorldData == None
    {
      shouldStoreRawData := storeRawData;
      rawMcWorldData := None;
    }

    /**
     * `GetChunks`. Any status but 200 fails; content the NBT sniff rejects fails
     * before the decoder is reached (the decoder's precondition is only known to hold
     * for accepted content); the raw bytes are kept only in "store raw data" mode and
     * only after a successful decode.
     */
    method GetChunks<Document>(startPos: Vector2Int, dx: Int32, dz: Int32,
                               server: Request -> Response,
                               isNbtDocument: Bytes -> bool,
                               loadDocument: Bytes --> Option<Document>)
      returns (r: Result<Document, ApiError>)
      requires forall content :: isNbtDocument(content) ==> loadDocument.requires(content)
      modifies this`rawMcWorldData
      ensures var ans := server(ChunksRequest(startPos, dx, dz));
        && (ans.status != StatusOK ==> r == Failure(HttpRequestError(ans.status)))
        && (ans.status == StatusOK && !isNbtDocument(ans.content) ==> r == Failure(NotNbtDocument))
        && (ans.status == StatusOK && isNbtDocument(ans.content) ==>
              r == match loadDocument(ans.content)
                   case None => Failure(DecoderFailed)
                   case Some(document) => Success(document))
        && rawMcWorldData == if shouldStoreRawData && r.Success? then Some(ans.content) else old(rawMcWorldData)
    {
      var pos := startPos;
      pos := pos.(x := DivBy16(pos.x));
      pos := pos.(z := DivBy16(pos.z));
      var countX := Clamp(dx, 0, MaxInt32);
      var countZ := Clamp(dz, 0, MaxInt32);
      var request := Get(ChunksPath(pos.x, pos.z, countX, countZ), "application/octet-stream");
      assert request == ChunksRequest(startPos, dx, dz);
      var ans := server(request);
      if ans.status != StatusOK {
        return Failure(HttpRequestError(ans.status));
      }
      var content := ans.content;
      if !isNbtDocument(content) {
        return Failure(NotNbtDocument);
      }
      var document := loadDocument(content);
      if document.None? {
        return Failure(DecoderFailed);
      }
      if shouldStoreRawData {
        rawMcWorldData := Some(content);
      }
      return Success(document.value);
    }
  }

  // ---------------------------------------------------------------------------
  // GetBuildArea and PutBlocks (they read no state of the client object)
  // ---------------------------------------------------------------------------

  /** `GetBuildArea` asks for the absolute URL rather than a path relative to the base address. */
  function BuildAreaRequest(): (req: Request)
    ensures req.Get? && req.accept == "application/json"
    ensures req.path == "http://localhost:9000/buildarea"
  {
    Get(BaseEndpoint + BuildAreaEndpoint, "application/json")
  }

  /**
   * `GetBuildArea`: fails on any status but 200 (404, "no build area set", included),
   * otherwise deserialises the body text.
   */
  function GetBuildArea(server: Request -> Response, readString: Bytes -> string,
                        deserialize: string -> Option<BuildAreaExtents>): (r: Result<BuildAreaExtents, ApiError>)
    ensures var ans := server(BuildAreaRequest());
      && (ans.status != StatusOK <==> r.Failure? && r.error.HttpRequestError?)
      && (ans.status != StatusOK ==> r.error.status == ans.status)
      && (r.Success? <==> ans.status == StatusOK && deserialize(readString(ans.content)).Some?)
      && (r.Success? ==> r.value == deserialize(readString(ans.content)).value)
      && (ans.status == StatusOK && deserialize(readString(ans.content)).None? ==> r == Failure(JsonError))
  {
    var ans := server(BuildAreaRequest());
    if ans.status != StatusOK then Failure(HttpRequestError(ans.status))
    else match deserialize(readString(ans.content))
      case None => Failure(JsonError)
      case Some(extents) => Success(extents)
  }

  /** The path `PutBlocks` interpolates: the query path of x, y, z, in that order. */
  function BlocksPath(startX: int, startY: int, startZ: int): (path: string)
    ensures path == QueryPath(BlocksEndpoint, [("x", startX), ("y", startY), ("z", startZ)])
  {
    BlocksPathIsQueryPath(startX, startY, startZ);
    BlocksEndpoint + "?x=" + Text.IntText(startX) + "&y=" + Text.IntText(startY) + "&z=" + Text.IntText(startZ)
  }

  lemma JoinThree(f0: string, f1: string, f2: string)
    ensures Text.Join([f0, f1, f2], '&') == f0 + "&" + f1 + "&" + f2
  {
    assert [f0, f1, f2][1..] == [f1, f2];
    assert [f1, f2][1..] == [f2];
    assert Text.Join([f2], '&') == f2;
    assert Text.Join([f1, f2], '&') == f1 + "&" + f2;
  }

  lemma BlocksPathShape(xs: string, ys: string, zs: string)
    ensures BlocksEndpoint + "?x=" + xs + "&y=" + ys + "&z=" + zs ==
      BlocksEndpoint + "?" + Text.Join(["x" + "=" + xs, "y" + "=" + ys, "z" + "=" + zs], '&')
  {
    JoinThree("x" + "=" + xs, "y" + "=" + ys, "z" + "=" + zs);
  }

  /** The blocks path interpolation is the query path of its three parameters, in order. */
  lemma BlocksPathIsQueryPath(x: int, y: int, z: int)
    ensures BlocksEndpoint + "?x=" + Text.IntText(x) + "&y=" + Text.IntText(y) + "&z=" + Text.IntText(z) ==
      QueryPath(BlocksEndpoint, [("x", x), ("y", y), ("z", z)])
  {
    var ps := [("x", x), ("y", y), ("z", z)];
    var xs, ys, zs := Text.IntText(x), Text.IntText(y), Text.IntText(z);
    assert ParamFields(ps) == ["x" + "=" + xs, "y" + "=" + ys, "z" + "=" + zs];
    BlocksPathShape(xs, ys, zs);
  }

  /**
   * The request `PutBlocks(blocks, startX, startZ, startY)` sends: the body verbatim,
   * and the query in x, y, z order although the arguments come in x, z, y order.
   */
  function PutBlocksRequest(blocks: string, startX: Int32, startZ: Int32, startY: Int32): (req: Request)
    ensures req.Put? && req.body == blocks && req.accept == "text/plain"
    ensures ReadQuery(req.path) == Some((BlocksEndpoint, [("x", startX as int), ("y", startY as int), ("z", startZ as int)]))
  {
    QueryPathRoundTrip(BlocksEndpoint, [("x", startX as int), ("y", startY as int), ("z", startZ as int)]);
    Put(BlocksPath(startX, startY, startZ), "text/plain", blocks)
  }

  /** `PutBlocks`: the server's text answer on status 200, an error on anything else. */
  function PutBlocks(blocks: string, startX: Int32, startZ: Int32, startY: Int32,
                     server: Request -> Response, readString: Bytes -> string): (r: Result<string, ApiError>)
    ensures var ans := server(PutBlocksRequest(blocks, startX, startZ, startY));
      && (r.Success? <==> ans.status == StatusOK)
      && (r.Failure? ==> r.error == HttpRequestError(ans.status))
      && (r.Success? ==> r.value == readString(ans.content))
  {
    var ans := server(PutBlocksRequest(blocks, startX, startZ, startY));
    if ans.status != StatusOK then Failure(HttpRequestError(ans.status)) else Success(readString(ans.content))
  }

  lemma BlocksPathExample()
    ensures BlocksPath(-7, 5, 10) == "blocks?x=-7&y=5&z=10"
  {
    assert Text.IntText(-7) == "-7" && Text.IntText(5) == "5";
    assert Text.NatDigits(10) == Text.NatDigits(1) + "0";
  }

  /** Two edits at origin (-7, 5, 10): the body goes out unchanged, the query reads x, y, z. */
  lemma PutBlocksExample()
    ensures var req := PutBlocksRequest("~0 ~0 ~0 minecraft:stone\n~0 ~1 ~0 minecraft:stone", -7, 10, 5);
      req.path == "blocks?x=-7&y=5&z=10" && req.body == "~0 ~0 ~0 minecraft:stone\n~0 ~1 ~0 minecraft:stone"
  {
    BlocksPathExample();
  }

  /** A 404 from the build-area endpoint (no build area set) is reported like any other failed status. */
  lemma OnlyStatusOkSucceeds(server: Request -> Response, readString: Bytes -> string,
                             deserialize: string -> Option<BuildAreaExtents>)
    requires server(BuildAreaRequest()).status == 404
    ensures GetBuildArea(server, readString, deserialize) == Failure(HttpRequestError(404))
  {
  }
}
