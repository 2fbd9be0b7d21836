/** Serving a file over HTTP with optional byte ranges: the checks on the
    `Range` header, the response headers, and the copy of the requested
    bytes from the input stream to the response in batches of at most 4096
    bytes. Parsing the header (`HttpRange.parse`) is a parameter; the
    streams are modelled by a byte sequence read from a position and a
    sequence of written bytes. */
module FileServer {
  import opened Wrappers
  import JavaText

  /** The size of the copy buffer. */
  const BUFFER_SIZE: int := 4096

  /** `HttpRange.Interval`: a start, an end, or both. */
  datatype Interval =
    | From(start: int)
    | Suffix(end: int)
    | Between(start: int, end: int)

  /** A parsed `Range` header; `text` is its `toString`. */
  datatype HttpRange = HttpRange(unit: string, intervals: seq<Interval>, text: string)

  /** What ends a request early: a bad request (400), the end of the input
      (`EOFException`), or a negative length passed to `write`
      (`IndexOutOfBoundsException`). */
  datatype Failure = BadRequest(message: string) | EndOfFile | WriteOutOfBounds

  function Max0(x: int): nat {
    if x < 0 then 0 else x
  }

  function Min(a: int, b: int): int {
    if a < b then a else b
  }

  /** `getContentLength`: the whole input, the suffix length, the rest from
      the start, or the distance from start to end. */
  function ContentLength(inputLength: int, range: Option<Interval>): int {
    match range
    case None => inputLength
    case Some(Suffix(end)) => end
    case Some(From(start)) => inputLength - start
    case Some(Between(start, end)) => end - start
  }

  /** The `toSkip` and `toRead` that `copy` computes. It always reads what
      the Content-Length header announces. */
  function Plan(inputLength: int, range: Option<Interval>): (r: (int, int))
    ensures r.1 == ContentLength(inputLength, range)
    ensures !range.Some? || !range.value.Between? ==> r.0 + r.1 == inputLength
  {
    var toSkip :=
      match range
      case None => 0
      case Some(Suffix(end)) => inputLength - end
      case Some(From(start)) => start
      case Some(Between(start, _)) => start;
    var toRead :=
      if range.Some? && range.value.Between? then range.value.end - range.value.start
      else inputLength - toSkip;
    (toSkip, toRead)
  }

  /** Whether the data from position `p` holds everything `copy` reads. */
  predicate Fits(data: seq<bv8>, p: nat, inputLength: int, range: Option<Interval>) {
    var (toSkip, toRead) := Plan(inputLength, range);
    toRead <= 0 || p + Max0(toSkip) + toRead <= |data|
  }

  /** The bytes `copy` writes: nothing when there is nothing to read or the
      skip passes the end of the data, else the bytes after the skip, up to
      the end of the data. */
  function Written(data: seq<bv8>, p: nat, inputLength: int, range: Option<Interval>): (r: seq<bv8>)
    requires p <= |data|
    ensures Fits(data, p, inputLength, range) ==> |r| == Max0(ContentLength(inputLength, range))
    ensures |r| <= Max0(ContentLength(inputLength, range))
  {
    var (toSkip, toRead) := Plan(inputLength, range);
    if toRead <= 0 || p + Max0(toSkip) > |data| then []
    else data[p + Max0(toSkip)..Min(|data|, p + Max0(toSkip) + toRead)]
  }

  /** When the data holds the bytes, `copy` writes the `toRead` bytes after
      the skip. */
  lemma WrittenWhenFits(data: seq<bv8>, p: nat, inputLength: int, range: Option<Interval>)
    requires p <= |data| && Plan(inputLength, range).1 > 0
    requires p + Max0(Plan(inputLength, range).0) + Plan(inputLength, range).1 <= |data|
    ensures Written(data, p, inputLength, range) ==
            data[p + Max0(Plan(inputLength, range).0)..p + Max0(Plan(inputLength, range).0) + Plan(inputLength, range).1]
  {
  }

  /** A file served whole or by a range inside it yields exactly the bytes
      of that range. */
  lemma ServedBytes(data: seq<bv8>, range: Option<Interval>)
    requires match range
             case None => true
             case Some(From(s)) => 0 <= s <= |data|
             case Some(Suffix(e)) => 0 <= e <= |data|
             case Some(Between(s, e)) => 0 <= s <= e <= |data|
    ensures Fits(data, 0, |data|, range)
    ensures Written(data, 0, |data|, range) ==
            match range
            case None => data
            case Some(From(s)) => data[s..]
            case Some(Suffix(e)) => data[|data| - e..]
            case Some(Between(s, e)) => data[s..e]
  {
    if range.None? && |data| == 0 {
      assert Written(data, 0, |data|, range) == [];
    }
  }

  /** The input stream of the file: its bytes and the read position. */
  class InputStream {
    const data: seq<bv8>
    var pos: nat

    predicate Valid()
      reads this
    {
      pos <= |data|
    }

    constructor (data: seq<bv8>)
      ensures this.data == data && pos == 0 && Valid()
    {
      this.data := data;
      pos := 0;
    }

    /** `skip(n)`: skips at most `n` bytes, fewer at the end of the data,
        and answers how many; 0 once the data is exhausted. */
    method Skip(n: int) returns (skipped: int)
      requires Valid()
      modifies this
      ensures Valid()
      ensures skipped == if n <= 0 then 0 else Min(n, |data| - old(pos))
      ensures pos == old(pos) + skipped
    {
      if n <= 0 {
        return 0;
      }
      skipped := Min(n, |data| - pos);
      pos := pos + skipped;
    }

    /** `read(bs, 0, len)`: reads at most `len` bytes, fewer at the end of
        the data, and answers how many; −1 at the end of the data. */
    method Read(len: int) returns (n: int, chunk: seq<bv8>)
      requires Valid() && len >= 0
      modifies this
      ensures Valid()
      ensures n == if len == 0 then 0 else if old(pos) == |data| then -1 else Min(len, |data| - old(pos))
      ensures pos == old(pos) + Max0(n)
      ensures chunk == data[old(pos)..pos]
    {
      if len == 0 {
        return 0, [];
      }
      if pos == |data| {
        return -1, [];
      }
      n := Min(len, |data| - pos);
      chunk := data[pos..pos + n];
      pos := pos + n;
    }
  }

  /** The response body: the bytes written and the length of each write. */
  class OutputStream {
    var bytes: seq<bv8>
    var writes: seq<int>

    constructor ()
      ensures bytes == [] && writes == []
    {
      bytes := [];
      writes := [];
    }

    /** `write(bs, 0, len)`: a negative length is refused
        (`IndexOutOfBoundsException`). */
    method Write(chunk: seq<bv8>, len: int) returns (ok: bool)
      requires len <= |chunk|
      modifies this
      ensures ok <==> len >= 0
      ensures ok ==> bytes == old(bytes) + chunk[..len] && writes == old(writes) + [len]
      ensures !ok ==> bytes == old(bytes) && writes == old(writes)
    {
      if len < 0 {
        return false;
      }
      bytes := bytes + chunk[..len];
      writes := writes + [len];
      return true;
    }
  }

  /** The skip loop of `copy`: succeeds when the data holds the bytes to
      skip, otherwise stops at the end of the data (`EOFException`). */
  method SkipFully(input: InputStream, toSkip: int) returns (ok: bool)
    requires input.Valid()
    modifies input
    ensures input.Valid()
    ensures ok <==> old(input.pos) + Max0(toSkip) <= |input.data|
    ensures ok ==> input.pos == old(input.pos) + Max0(toSkip)
  {
    var left := toSkip;
    while left > 0
      invariant input.Valid()
      invariant input.pos + Max0(left) == old(input.pos) + Max0(toSkip)
      decreases left
    {
      var skipped := input.Skip(left);
      if skipped == 0 {
        return false;
      }
      left := left - skipped;
    }
    return true;
  }

  /** `copy` as written: a read of −1 at the end of the data is not caught
      by the check for 0 and reaches `write`, which refuses it. */
  method CopyAsWritten(input: InputStream, output: OutputStream, inputLength: int, range: Option<Interval>)
    returns (r: Result<(), Failure>)
    requires input.Valid()
    modifies input, output
    ensures input.Valid()
    ensures var (toSkip, toRead) := Plan(inputLength, range);
            && (r.Ok? <==> Fits(input.data, old(input.pos), inputLength, range))
            && (r == Err(EndOfFile) <==> toRead > 0 && old(input.pos) + Max0(toSkip) > |input.data|)
            && (r == Err(WriteOutOfBounds) <==>
                  toRead > 0 && old(input.pos) + Max0(toSkip) <= |input.data| < old(input.pos) + Max0(toSkip) + toRead)
    ensures output.bytes == old(output.bytes) + Written(input.data, old(input.pos), inputLength, range)
    ensures |output.writes| >= |old(output.writes)|
    ensures forall i :: |old(output.writes)| <= i < |output.writes| ==> 0 < output.writes[i] <= BUFFER_SIZE
  {
    var (toSkip, toRead) := Plan(inputLength, range);
    if toRead <= 0 {
      return Ok(());
    }
    var skippedAll := SkipFully(input, toSkip);
    if !skippedAll {
      return Err(EndOfFile);
    }
    var start := input.pos;
    while toRead > 0
      invariant input.Valid() && start <= input.pos && toRead >= 0
      invariant toRead + (input.pos - start) == Plan(inputLength, range).1
      invariant output.bytes == old(output.bytes) + input.data[start..input.pos]
      invariant |output.writes| >= |old(output.writes)|
      invariant forall i :: |old(output.writes)| <= i < |output.writes| ==> 0 < output.writes[i] <= BUFFER_SIZE
      decreases toRead
    {
      var batchSize := BUFFER_SIZE;
      if toRead < batchSize {
        batchSize := toRead;
      }
      var before := input.pos;
      var len, chunk := input.Read(batchSize);
      if len == 0 {
        return Err(EndOfFile);
      }
      var ok := output.Write(chunk, len);
      if !ok {
        return Err(WriteOutOfBounds);
      }
      assert input.data[start..input.pos] == input.data[start..before] + chunk;
      toRead := toRead - len;
    }
    WrittenWhenFits(input.data, old(input.pos), inputLength, range);
    return Ok(());
  }

  /** `copy` with the end of the data (a read of −1) taken as the end of
      file: it writes exactly the bytes the Content-Length announces when
      the data holds them, and every write is at most one buffer. */
  method Copy(input: InputStream, output: OutputStream, inputLength: int, range: Option<Interval>)
    returns (r: Result<(), Failure>)
    requires input.Valid()
    modifies input, output
    ensures input.Valid()
    ensures r.Ok? <==> Fits(input.data, old(input.pos), inputLength, range)
    ensures r.Err? ==> r.error == EndOfFile
    ensures output.bytes == old(output.bytes) + Written(input.data, old(input.pos), inputLength, range)
    ensures |output.writes| >= |old(output.writes)|
    ensures forall i :: |old(output.writes)| <= i < |output.writes| ==> 0 < output.writes[i] <= BUFFER_SIZE
  {
    var (toSkip, toRead) := Plan(inputLength, range);
    if toRead <= 0 {
      return Ok(());
    }
    var skippedAll := SkipFully(input, toSkip);
    if !skippedAll {
      return Err(EndOfFile);
    }
    var start := input.pos;
    while toRead > 0
      invariant input.Valid() && start <= input.pos && toRead >= 0
      invariant toRead + (input.pos - start) == Plan(inputLength, range).1
      invariant output.bytes == old(output.bytes) + input.data[start..input.pos]
      invariant |output.writes| >= |old(output.writes)|
      invariant forall i :: |old(output.writes)| <= i < |output.writes| ==> 0 < output.writes[i] <= BUFFER_SIZE
      decreases toRead
    {
      var batchSize := BUFFER_SIZE;
      if toRead < batchSize {
        batchSize := toRead;
      }
      var before := input.pos;
      var len, chunk := input.Read(batchSize);
      if len <= 0 {
        return Err(EndOfFile);
      }
      var _ := output.Write(chunk, len);
      assert input.data[start..input.pos] == input.data[start..before] + chunk;
      toRead := toRead - len;
    }
    WrittenWhenFits(input.data, old(input.pos), inputLength, range);
    return Ok(());
  }

  /** The response before the body: status, headers, whether the body is
      copied, and the interval to copy. */
  datatype Response = Response(status: int, headers: map<string, string>, copies: bool, interval: Option<Interval>)

  /** The checks and headers of `readFile`: a header that does not parse, a
      unit other than bytes, or more than one interval is a bad request; a
      single interval answers 206 with a Content-Range; the Content-Length
      is `getContentLength`; only a GET request gets a body. */
  function ReadFileHeaders(requestMethod: string, rangeValue: Option<string>,
                           parse: string -> Option<HttpRange>, fileLength: int, contentType: string)
    : (r: Result<Response, Failure>)
    ensures rangeValue.None? ==>
              r.Ok? && r.value.status == 200 && "Content-Range" !in r.value.headers && r.value.interval.None?
    ensures rangeValue.Some? && parse(rangeValue.value).None? ==>
              r == Err(BadRequest("Invalid value for header Range: " + rangeValue.value))
    ensures rangeValue.Some? && parse(rangeValue.value).Some? ==>
              var range := parse(rangeValue.value).value;
              && (range.unit != "bytes" ==> r == Err(BadRequest("Invalid unit in header Range: " + range.unit)))
              && (range.unit == "bytes" && |range.intervals| != 1 ==>
                    r == Err(BadRequest("Multi-range request not supported")))
              && (range.unit == "bytes" && |range.intervals| == 1 ==>
                    r.Ok? && r.value.status == 206 && r.value.interval == Some(range.intervals[0]) &&
                    "Content-Range" in r.value.headers &&
                    r.value.headers["Content-Range"] == "bytes " + range.text + "/" + JavaText.LongToString(fileLength))
    ensures r.Ok? ==>
              && r.value.headers.Keys >= {"Accept-Ranges", "Content-Length", "Content-Type"}
              && r.value.headers["Accept-Ranges"] == "bytes"
              && r.value.headers["Content-Length"] == JavaText.LongToString(ContentLength(fileLength, r.value.interval))
              && r.value.headers["Content-Type"] == contentType
              && (r.value.copies <==> JavaText.ToLower(requestMethod) == "get")
  {
    var common := map["Accept-Ranges" := "bytes"];
    var copies := JavaText.ToLower(requestMethod) == "get";
    if rangeValue.None? then
      Ok(Response(200, common["Content-Length" := JavaText.LongToString(fileLength)]["Content-Type" := contentType],
                  copies, None))
    else
      match parse(rangeValue.value)
      case None => Err(BadRequest("Invalid value for header Range: " + rangeValue.value))
      case Some(range) =>
        if range.unit != "bytes" then Err(BadRequest("Invalid unit in header Range: " + range.unit))
        else if |range.intervals| != 1 then Err(BadRequest("Multi-range request not supported"))
        else
          var interval := range.intervals[0];
          var headers := common["Content-Range" := "bytes " + range.text + "/" + JavaText.LongToString(fileLength)];
          Ok(Response(206, headers["Content-Length" := JavaText.LongToString(ContentLength(fileLength, Some(interval)))]
                                  ["Content-Type" := contentType],
                      copies, Some(interval)))
  }

  /** When the data holds the requested bytes, the body is exactly as long
      as the Content-Length header says. */
  lemma BodyMatchesContentLength(requestMethod: string, rangeValue: Option<string>,
                                 parse: string -> Option<HttpRange>, data: seq<bv8>, p: nat,
                                 fileLength: int, contentType: string)
    requires p <= |data|
    requires ReadFileHeaders(requestMethod, rangeValue, parse, fileLength, contentType).Ok?
    requires Fits(data, p, fileLength, ReadFileHeaders(requestMethod, rangeValue, parse, fileLength, contentType).value.interval)
    requires ContentLength(fileLength, ReadFileHeaders(requestMethod, rangeValue, parse, fileLength, contentType).value.interval) >= 0
    ensures var resp := ReadFileHeaders(requestMethod, rangeValue, parse, fileLength, contentType).value;
            resp.headers["Content-Length"] == JavaText.LongToString(|Written(data, p, fileLength, resp.interval)|)
  {
  }

  /** `readFile`: the headers, then for a GET request the copy of the
      body. */
  method ReadFile(requestMethod: string, rangeValue: Option<string>, parse: string -> Option<HttpRange>,
                  input: InputStream, output: OutputStream, fileLength: int, contentType: string)
    returns (r: Result<Response, Failure>)
    requires input.Valid()
    modifies input, output
    ensures input.Valid()
    ensures var h := ReadFileHeaders(requestMethod, rangeValue, parse, fileLength, contentType);
            && (h.Err? || !h.value.copies ==> r == h && output.bytes == old(output.bytes))
            && (h.Ok? && h.value.copies ==>
                  && output.bytes == old(output.bytes) + Written(input.data, old(input.pos), fileLength, h.value.interval)
                  && (r.Ok? <==> Fits(input.data, old(input.pos), fileLength, h.value.interval))
                  && (r.Ok? ==> r == h)
                  && (r.Err? ==> r.error == EndOfFile))
  {
    r := ReadFileHeaders(requestMethod, rangeValue, parse, fileLength, contentType);
    if r.Err? || !r.value.copies {
      return;
    }
    var copied := Copy(input, output, fileLength, r.value.interval);
    if copied.Err? {
      r := Err(copied.error);
    }
  }
}
