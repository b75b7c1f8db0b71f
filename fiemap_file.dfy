/** FiemapFile: the extent-map query of fiemap.go. FieMap pages through the
    file's extent map by calling FiemapCall until a batch carries
    FIEMAP_EXTENT_LAST; FiemapCall issues one FS_IOC_FIEMAP ioctl through a
    buffer of extent slots whose first slot also holds the request header.
    The open file is represented by the kernel's behaviour: one Kernel per
    call for FieMap, one for FiemapCall. */
module FiemapFile {
  import opened FiemapAbi
  import opened Kernel
  import opened Pagination

  /** One FS_IOC_FIEMAP call for `length` bytes from `start`: the result is
      exactly the batch the kernel reports for the request header with that
      start and length, FIEMAP_FLAG_SYNC and room for NumExts extents, or the
      kernel's error; slot 0, which holds the header, is never part of it. */
  method FiemapCall(kernel: Kernel, start: uint64, length: uint64) returns (r: Result<seq<Extent>>)
    ensures r == QueryResult(Answer(kernel, Query(start, length)))
    ensures r.Ok? ==> |r.value| <= NumExts
  {
    var numExts := NumExts;
    var extBuf := new Extent[numExts + 1](_ => ZeroExtent);
    // the header's byte offset in extBuf: it ends where slot 1 begins
    var ptr := ExtentSize - FiemapSize;
    var slot := ptr / ExtentSize;

    extBuf[slot] := WithHeader(extBuf[slot], HeaderView(extBuf[slot]).(start := start));
    extBuf[slot] := WithHeader(extBuf[slot], HeaderView(extBuf[slot]).(length := length));
    extBuf[slot] := WithHeader(extBuf[slot], HeaderView(extBuf[slot]).(flags := FIEMAP_FLAG_SYNC));
    extBuf[slot] := WithHeader(extBuf[slot], HeaderView(extBuf[slot]).(extentCount := numExts));
    assert HeaderView(extBuf[slot]) == Request(Query(start, length));

    var errno := Ioctl(kernel, FS_IOC_FIEMAP, extBuf, ptr);
    if errno != 0 {
      return Err(errno);
    }
    var mapped := HeaderView(extBuf[slot]).mappedExtents;
    r := Ok(extBuf[1..1 + mapped]);
  }

  /** The whole extent map from `offset` for `length` bytes (0: to the end
      of the file), collected over as many calls as the kernel needs.
      The result, and the queries issued (a ghost record), are those of the
      protocol Run; see RunFollows for what that means call by call.
      The enumeration ends only on an error or on a batch with the LAST
      flag, so the precondition asks that this happens within the script. */
  method FieMap(script: seq<Kernel>, offset: uint64, length: uint64)
      returns (r: Result<seq<Extent>>, ghost queries: seq<Query>)
    requires Halts(script, Query(offset, EffectiveLength(length)))
    ensures r == Run(script, Query(offset, EffectiveLength(length))).result
    ensures queries == Run(script, Query(offset, EffectiveLength(length))).queries
  {
    var isEof := false;
    var extents: seq<Extent> := [];
    var offset: uint64, length: uint64 := offset, length;
    if length == 0 {
      length := FIEMAP_MAX_OFFSET;
    }
    ghost var whole := Run(script, Query(offset, length));
    var calls := 0;  // how many ioctls the kernel has answered so far
    queries := [];
    assert script[calls..] == script;
    ResumeNothing(whole);
    while !isEof
      invariant calls <= |script|
      invariant !isEof ==> Halts(script[calls..], Query(offset, length))
      invariant !isEof ==> whole == Resume(queries, extents, Run(script[calls..], Query(offset, length)))
      invariant isEof ==> whole == Outcome(queries, Ok(extents))
      decreases |script| - calls
    {
      ghost var q := Query(offset, length);
      ghost var rest := script[calls..];
      assert rest[0] == script[calls] && rest[1..] == script[calls + 1..];
      var exts := FiemapCall(script[calls], offset, length);
      RunStep(rest, q, queries, extents);
      if exts.Err? {
        queries := queries + [q];
        return Err(exts.errno), queries;
      }
      ghost var batch := exts.value;
      assert batch == Answer(rest[0], q).extents;
      extents := extents + exts.value;

      isEof, offset, length := ScanBatch(exts.value, offset, length);
      assert isEof == Stops(Answer(rest[0], q));
      assert Query(offset, length) == NextQuery(q, batch);
      queries := queries + [q];
      calls := calls + 1;
    }
    r := Ok(extents);
  }

  /** The body of FieMap's loop after a batch arrives: for each extent in
      turn, note the LAST flag, advance `offset` and shrink `length` by the
      extent's length with uint64 wrap-around. */
  method ScanBatch(exts: seq<Extent>, offset: uint64, length: uint64)
      returns (isEof: bool, offset': uint64, length': uint64)
    ensures isEof == HasLast(exts)
    ensures Query(offset', length') == NextQuery(Query(offset, length), exts)
  {
    ghost var q := Query(offset, length);
    isEof, offset', length' := false, offset, length;
    var i := 0;
    assert exts[..0] == [];
    while i < |exts|
      invariant 0 <= i <= |exts|
      invariant isEof == HasLast(exts[..i])
      invariant Query(offset', length') == NextQuery(q, exts[..i])
    {
      var e := exts[i];
      assert exts[..i + 1] == exts[..i] + [e];
      HasLastSnoc(exts[..i], e);
      NextQuerySnoc(q, exts[..i], e);
      if FIEMAP_EXTENT_LAST & e.flags == FIEMAP_EXTENT_LAST {
        isEof := true;
      }
      offset' := Wrap(offset' + e.length);
      length' := Wrap(length' - e.length);
      i := i + 1;
    }
    assert exts[..i] == exts;
  }

  /** The request Fallocate and PunchHole hand to fallocate(2). */
  datatype FallocateRequest = FallocateRequest(mode: bv32, offset: int, length: int)

  /** Fallocate allocates the range and may grow the file: no mode flag. */
  function Fallocate(offset: int, length: int): (c: FallocateRequest)
    ensures c.mode & FALLOC_FL_KEEP_SIZE == 0 && c.mode & FALLOC_FL_PUNCH_HOLE == 0
    ensures c.mode == 0
    ensures c.offset == offset && c.length == length
  {
    FallocateRequest(0, offset, length)
  }

  /** PunchHole de-allocates the range and keeps the file size: exactly the
      KEEP_SIZE and PUNCH_HOLE flags. */
  function PunchHole(offset: int, length: int): (c: FallocateRequest)
    ensures c.mode & FALLOC_FL_KEEP_SIZE != 0 && c.mode & FALLOC_FL_PUNCH_HOLE != 0
    ensures c.mode & !(FALLOC_FL_KEEP_SIZE | FALLOC_FL_PUNCH_HOLE) == 0
    ensures c.offset == offset && c.length == length
  {
    FallocateRequest(FALLOC_FL_KEEP_SIZE | FALLOC_FL_PUNCH_HOLE, offset, length)
  }
}
