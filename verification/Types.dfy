/** Statuses, policies, limits and the entities the parser fills in. */
module Types {
  import opened Bytes

  datatype Status = Ok | Incomplete | Error | TooLong | TooManyHeaders

  const MAX_HEADERS: nat := 64
  const MAX_HEADER_LINE: nat := 8192
  const MAX_REQUEST_LINE: nat := 8192

  datatype Policy = Policy(rejectObsFold: bool, rejectBareLf: bool, rejectTeCl: bool, allowSpacesInUri: bool)

  const STRICT: Policy := Policy(true, true, true, false)

  datatype Method = Unknown | Get | Post | Put | Delete | Head | Options | Patch | Connect | Trace

  datatype Version = Http10 | Http11

  datatype Mode = RequestMode | ResponseMode | HeadersMode

  datatype Phase = AtStartLine | AtHeaders | Done | Failed

  datatype BodyMode = NoBody | FixedBody | ChunkedBody | UntilClose

  /** A header as two spans of the input buffer. Differences of offsets are plain integers. */
  datatype Header = Header(name: nat, nameLen: nat, value: nat, valueLen: int)

  const ZERO_HEADER: Header := Header(0, 0, 0, 0)

  /** A header as two strings. */
  datatype Field = Field(name: seq<byte>, value: seq<byte>)

  /** The start-line part of a parsed head, as spans of the input buffer. */
  datatype StartLine =
    | RequestLine(verb: Method, methodStr: nat, methodLen: nat, path: nat, pathLen: nat, version: Version)
    | StatusLine(version: Version, code: int, reason: nat, reasonLen: nat)
    | NoStartLine

  /** What a zeroed output structure holds. */
  function ZeroLine(mode: Mode): StartLine {
    match mode
    case RequestMode => RequestLine(Unknown, 0, 0, 0, 0, Http10)
    case ResponseMode => StatusLine(Http10, 0, 0, 0)
    case HeadersMode => NoStartLine
  }

  const GET: seq<byte> := [71, 69, 84]
  const PUT: seq<byte> := [80, 85, 84]
  const POST: seq<byte> := [80, 79, 83, 84]
  const HEAD: seq<byte> := [72, 69, 65, 68]
  const PATCH: seq<byte> := [80, 65, 84, 67, 72]
  const TRACE: seq<byte> := [84, 82, 65, 67, 69]
  const DELETE: seq<byte> := [68, 69, 76, 69, 84, 69]
  const OPTIONS: seq<byte> := [79, 80, 84, 73, 79, 78, 83]
  const CONNECT: seq<byte> := [67, 79, 78, 78, 69, 67, 84]

  /** Lookup of a method token; anything else is Unknown, which is not an error. */
  function MethodFromBytes(m: seq<byte>): Method {
    if m == GET then Get
    else if m == PUT then Put
    else if m == POST then Post
    else if m == HEAD then Head
    else if m == PATCH then Patch
    else if m == TRACE then Trace
    else if m == DELETE then Delete
    else if m == OPTIONS then Options
    else if m == CONNECT then Connect
    else Unknown
  }
}
