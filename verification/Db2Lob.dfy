/** The LOB reader of src/connections/db2.cpp, for data whose characters are one byte each: two
    counters decide whether a read goes on where the last one stopped. */
module Db2Lob {
  import opened Characters
  import Db2Fetch

  const MAX_LOB_CHUNK_SIZE: nat := 2147483647

  /** The largest SQLINTEGER, and so the longest that a LOB can be. */
  const MAX_SQLINTEGER: nat := 2147483647

  /** What is asked for stays so far from the largest 64 bit number that no sum of positions wraps. */
  const MAX_REQUEST: nat := 0x7fff_ffff_ffff_ffff

  type Bytes = seq<bv8>

  /** What SQLGetSubString() gives for a position counted from 1: past the end it reads nulls. */
  function SubString(lob: Bytes, position: nat, length: nat): (r: Bytes)
    requires position >= 1
    ensures |r| == length
  {
    seq(length, i requires 0 <= i < length => if position - 1 + i < |lob| then lob[position - 1 + i] else 0)
  }

  lemma SubStringInRange(lob: Bytes, position: nat, length: nat)
    requires position >= 1 && position - 1 + length <= |lob|
    ensures SubString(lob, position, length) == lob[position - 1..position - 1 + length]
  {
  }

  class Driver {
    var failed: bool

    constructor ()
      ensures !failed
    {
      failed := false;
    }

    method GetLength(lob: Bytes) returns (ok: bool, length: nat)
      modifies this
      ensures ok ==> length == |lob| && failed == old(failed)
      ensures !ok ==> failed
    {
      ok, length := *, |lob|;
      failed := failed || !ok;
    }

    /** Puts the bytes in the buffer from an index on, as many as there's room for. Whether bytes that
        exactly fill the buffer fit, next to a terminator, isn't known. */
    method GetSubString(lob: Bytes, position: nat, length: nat, buffer: array<bv8>, at: nat)
        returns (ok: bool, bytesread: nat)
      requires position >= 1 && at <= buffer.Length
      modifies this, buffer
      ensures old(failed) ==> failed
      ensures ok ==> failed == old(failed) && bytesread <= length && at + bytesread <= buffer.Length
      ensures ok && at + length < buffer.Length ==> bytesread == length
      ensures ok ==> buffer[at..at + bytesread] == SubString(lob, position, length)[..bytesread]
      ensures ok ==> buffer[..at] == old(buffer[..at]) && buffer[at + bytesread..] == old(buffer[at + bytesread..])
      ensures !ok ==> failed
    {
      ok, bytesread := *, 0;
      if !ok {
        failed := true;
        return;
      }
      var cut: nat := *;
      var fits := if at + length < buffer.Length then length
                  else Db2Fetch.Min(cut, Db2Fetch.Min(length, buffer.Length - at));
      ghost var wanted := SubString(lob, position, length);
      while bytesread < fits
        invariant bytesread <= fits && failed == old(failed)
        invariant forall i :: at <= i < at + bytesread ==> buffer[i] == wanted[i - at]
        invariant forall i :: 0 <= i < at || at + bytesread <= i < buffer.Length ==> buffer[i] == old(buffer[i])
      {
        buffer[at + bytesread] := if position - 1 + bytesread < |lob| then lob[position - 1 + bytesread] else 0;
        bytesread := bytesread + 1;
      }
    }
  }

  // ------------------------------------------------------------ the reader

  datatype Counters = Counters(charposition: nat, nextoffset: nat)

  const INITIAL_COUNTERS := Counters(0, 0)

  /** Where a read at an offset starts. */
  function Start(c: Counters, offset: nat): nat {
    if offset == c.nextoffset then c.charposition else offset
  }

  /** What a read gives, if DB2 doesn't fail and there's room, of a LOB that is taken to have a length. */
  function Served(c: Counters, lob: Bytes, length: nat, offset: nat, charstoread: nat): Option<Bytes> {
    var start := Start(c, offset);
    if start > length then None else Some(SubString(lob, start + 1, Db2Fetch.Min(charstoread, length - start)))
  }

  /** The bytes that the chunks of a read add up to. Every chunk starts where the first one does. */
  function Chunks(lob: Bytes, start: nat, length: nat): (r: Bytes)
    ensures |r| == length
  {
    if length <= MAX_LOB_CHUNK_SIZE then SubString(lob, start + 1, length)
    else SubString(lob, start + 1, MAX_LOB_CHUNK_SIZE) + Chunks(lob, start, length - MAX_LOB_CHUNK_SIZE)
  }

  /** The reader of one field of one row slot. The slot's row, and so the LOB, changes from block to
      block; the counters stay. */
  class LobField {
    var loblength: nat
    var lobcharposition: nat
    var lobnextoffset: nat

    ghost predicate Valid()
      reads this
    {
      loblength <= MAX_SQLINTEGER
    }

    ghost function State(): Counters
      reads this
    {
      Counters(lobcharposition, lobnextoffset)
    }

    constructor ()
      ensures Valid() && State() == INITIAL_COUNTERS
    {
      loblength, lobcharposition, lobnextoffset := 0, 0, 0;
    }

    method GetLobFieldLength(driver: Driver, lob: Bytes) returns (ok: bool, length: nat)
      requires Valid() && |lob| <= MAX_SQLINTEGER
      modifies this`loblength, driver
      ensures Valid()
      ensures old(driver.failed) ==> driver.failed
      ensures ok ==> length == loblength == |lob| && driver.failed == old(driver.failed)
      ensures !ok ==> driver.failed && loblength == old(loblength)
    {
      ok, length := driver.GetLength(lob);
      if ok {
        loblength := length;
      }
    }

    /** loblength is what the last call for a length left, perhaps for another LOB. */
    method GetLobFieldSegment(driver: Driver, lob: Bytes, buffer: array<bv8>, offset: nat, charstoread: nat)
        returns (ok: bool, charsread: nat)
      requires Valid() && charstoread <= MAX_REQUEST
      modifies this`lobcharposition, this`lobnextoffset, driver, buffer
      ensures old(driver.failed) ==> driver.failed
      ensures
        var start := Start(old(State()), offset);
        var served := Served(old(State()), lob, loblength, offset, charstoread);
        && (!ok ==> State() == Counters(start, old(lobnextoffset)) && (served.None? || driver.failed))
        && (ok ==>
             && served.Some? && driver.failed == old(driver.failed)
             && charsread <= |served.value| && charsread <= buffer.Length
             && (|served.value| < buffer.Length ==> charsread == |served.value|)
             && buffer[..charsread] == served.value[..charsread]
             && buffer[charsread..] == old(buffer[charsread..])
             && State() == Counters(start + |served.value|, offset + charsread))
    {
      if offset != lobnextoffset {
        lobcharposition := offset;
      }
      var charposition := lobcharposition;
      if charposition > loblength {
        return false, 0;
      }
      var toread := charstoread;
      if charposition + toread > loblength {
        toread := toread - ((charposition + toread) - loblength);
      }
      ok, charsread := ReadChunks(driver, lob, buffer, charposition, toread);
      if !ok {
        return;
      }
      lobcharposition := charposition + toread;
      lobnextoffset := offset + charsread;
    }
  }

  /** The loop of getLobFieldSegment(). It stops early only when the buffer is full. */
  method ReadChunks(driver: Driver, lob: Bytes, buffer: array<bv8>, charposition: nat, charstoread: nat)
      returns (ok: bool, totalbytesread: nat)
    modifies driver, buffer
    ensures old(driver.failed) ==> driver.failed
    ensures !ok ==> driver.failed
    ensures ok ==>
      && driver.failed == old(driver.failed)
      && totalbytesread <= charstoread && totalbytesread <= buffer.Length
      && (charstoread < buffer.Length ==> totalbytesread == charstoread)
      && buffer[..totalbytesread] == Chunks(lob, charposition, charstoread)[..totalbytesread]
      && buffer[totalbytesread..] == old(buffer[totalbytesread..])
  {
    hide Chunks;
    totalbytesread := 0;
    var remaining := charstoread;
    ghost var all := Chunks(lob, charposition, charstoread);
    ghost var unread := buffer[..];
    while true
      invariant 0 <= totalbytesread <= buffer.Length && 0 <= remaining && totalbytesread + remaining == charstoread
      invariant driver.failed == old(driver.failed)
      invariant all == buffer[..totalbytesread] + Chunks(lob, charposition, remaining)
      invariant buffer[totalbytesread..] == unread[totalbytesread..]
      decreases remaining
    {
      ghost var left := remaining;
      var bytestoread := remaining;
      if remaining < MAX_LOB_CHUNK_SIZE {
        bytestoread := remaining;
      } else {
        bytestoread := MAX_LOB_CHUNK_SIZE;
        remaining := remaining - MAX_LOB_CHUNK_SIZE;
      }
      var bytesread;
      ok, bytesread := ReadChunk(driver, lob, buffer, charposition, totalbytesread, bytestoread, left, all, unread);
      if !ok {
        return;
      }
      totalbytesread := totalbytesread + bytesread;
      if bytesread < bytestoread || totalbytesread == charstoread {
        break;
      }
    }
  }

  /** One round of the loop, which has so much left to read of all that it's to read. */
  method ReadChunk(driver: Driver, lob: Bytes, buffer: array<bv8>, charposition: nat, at: nat, bytestoread: nat,
                   ghost left: nat, ghost all: Bytes, ghost unread: Bytes)
      returns (ok: bool, bytesread: nat)
    requires at <= buffer.Length == |unread| && bytestoread == Db2Fetch.Min(left, MAX_LOB_CHUNK_SIZE)
    requires all == buffer[..at] + Chunks(lob, charposition, left) && buffer[at..] == unread[at..]
    modifies driver, buffer
    ensures old(driver.failed) ==> driver.failed
    ensures !ok ==> driver.failed
    ensures ok ==>
      && driver.failed == old(driver.failed)
      && bytesread <= bytestoread && at + bytesread <= buffer.Length
      && (at + bytestoread < buffer.Length ==> bytesread == bytestoread)
      && at + bytesread <= |all| && buffer[..at + bytesread] == all[..at + bytesread]
      && buffer[at + bytesread..] == unread[at + bytesread..]
      && (bytesread == bytestoread ==>
           all == buffer[..at + bytesread] + Chunks(lob, charposition, left - bytestoread))
  {
    hide Chunks, SubString;
    ghost var before := buffer[..at];
    ghost var chunk, more := SubString(lob, charposition + 1, bytestoread), Chunks(lob, charposition, left - bytestoread);
    OneChunk(lob, charposition, left);
    ok, bytesread := driver.GetSubString(lob, charposition + 1, bytestoread, buffer, at);
    if ok {
      assert buffer[..at + bytesread] == before + chunk[..bytesread];
      assert unread[at..][bytesread..] == unread[at + bytesread..];
      assert chunk[..bytestoread] == chunk;
    }
  }

  lemma OneChunk(lob: Bytes, start: nat, length: nat)
    ensures Chunks(lob, start, length)
         == SubString(lob, start + 1, Db2Fetch.Min(length, MAX_LOB_CHUNK_SIZE))
            + Chunks(lob, start, length - Db2Fetch.Min(length, MAX_LOB_CHUNK_SIZE))
  {
  }

  lemma ChunksInRange(lob: Bytes, start: nat, length: nat)
    requires start + length <= |lob| && length <= MAX_LOB_CHUNK_SIZE
    ensures Chunks(lob, start, length) == lob[start..start + length]
  {
    SubStringInRange(lob, start + 1, length);
  }

  // ------------------------------------------------------------ the chunks

  /** Only one byte isn't null. */
  function OneByte(size: nat, at: nat): (r: Bytes)
    ensures |r| == size
  {
    seq(size, i => if i == at then 1 else 0)
  }

  /** A read in range is right, whatever the LOB holds, iff it takes one chunk. The length of a LOB is
      read as a SQLINTEGER, so a longer read never happens. */
  lemma OneChunkIff(size: nat, start: nat, length: nat)
    requires start + length <= size
    ensures (forall lob: Bytes :: |lob| == size ==> Chunks(lob, start, length) == lob[start..start + length])
       <==> length <= MAX_LOB_CHUNK_SIZE
    ensures size <= MAX_SQLINTEGER ==> length <= MAX_LOB_CHUNK_SIZE
  {
    if length <= MAX_LOB_CHUNK_SIZE {
      forall lob: Bytes | |lob| == size ensures Chunks(lob, start, length) == lob[start..start + length] {
        ChunksInRange(lob, start, length);
      }
    } else {
      var lob := OneByte(size, start);
      assert lob[start..start + length][MAX_LOB_CHUNK_SIZE] == lob[start + MAX_LOB_CHUNK_SIZE] == 0;
    }
  }

  // ------------------------------------------------------------ the counters

  /** What was asked for. */
  function Requested(lob: Bytes, offset: nat, charstoread: nat): Option<Bytes> {
    if offset > |lob| then None else Some(lob[offset..offset + Db2Fetch.Min(charstoread, |lob| - offset)])
  }

  /** Of a LOB whose length is known, a read gives what would be asked for where it starts. */
  lemma ServedIsRequested(c: Counters, lob: Bytes, offset: nat, charstoread: nat)
    ensures Served(c, lob, |lob|, offset, charstoread) == Requested(lob, Start(c, offset), charstoread)
  {
    var start := Start(c, offset);
    if start <= |lob| {
      SubStringInRange(lob, start + 1, Db2Fetch.Min(charstoread, |lob| - start));
    }
  }

  /** A read that was made: if it succeeded, how many characters it passed, and how many of them the buffer
      had room for. */
  datatype Read = Read(offset: nat, ok: bool, passed: nat, stored: nat)

  /** The counters after some reads of a field, oldest first. */
  function AfterReads(history: seq<Read>): Counters {
    if history == [] then INITIAL_COUNTERS
    else
      var last := history[|history| - 1];
      var c := AfterReads(history[..|history| - 1]);
      var start := Start(c, last.offset);
      if last.ok then Counters(start + last.passed, last.offset + last.stored)
      else Counters(start, c.nextoffset)
  }

  /** Where the last read that succeeded ended, so where a read that goes on starts. */
  function LastEnd(history: seq<Read>): nat {
    if history == [] then 0
    else
      var last := history[|history| - 1];
      if last.ok then last.offset + last.stored else LastEnd(history[..|history| - 1])
  }

  /** How far off a read that goes on is: by how much the last read that didn't go on jumped, if that one
      failed, and by the characters that there was no room for since. */
  function Drift(history: seq<Read>): int {
    if history == [] then 0
    else
      var last := history[|history| - 1];
      var before := history[..|history| - 1];
      (if last.offset == LastEnd(before) then Drift(before)
       else if last.ok then 0 else last.offset - LastEnd(before))
      + if last.ok then last.passed - last.stored else 0
  }

  /** The last read that didn't go on where another ended failed. */
  predicate LastJumpFailed(history: seq<Read>) {
    history != [] &&
    var last := history[|history| - 1];
    var before := history[..|history| - 1];
    if last.offset == LastEnd(before) then LastJumpFailed(before) else !last.ok
  }

  /** The two counters are apart by the drift. */
  lemma {:induction false} CountersFollow(history: seq<Read>)
    ensures AfterReads(history).nextoffset == LastEnd(history)
    ensures AfterReads(history).charposition == LastEnd(history) + Drift(history)
  {
    if history != [] {
      CountersFollow(history[..|history| - 1]);
    }
  }

  /** When there is always room, there is drift iff the last jump failed. */
  lemma {:induction false} DriftIff(history: seq<Read>)
    requires forall r :: r in history && r.ok ==> r.stored == r.passed
    ensures Drift(history) != 0 <==> LastJumpFailed(history)
  {
    if history != [] {
      DriftIff(history[..|history| - 1]);
    }
  }

  /** After any reads, a read in range gives what was asked for, whatever the LOB holds, unless it goes on
      where the last success ended and there is drift. */
  lemma InRangeReadIff(history: seq<Read>, size: nat, offset: nat, charstoread: nat)
    requires offset <= size && charstoread > 0
    ensures (forall lob: Bytes :: |lob| == size ==>
               Served(AfterReads(history), lob, |lob|, offset, charstoread) == Requested(lob, offset, charstoread))
       <==> !(offset == LastEnd(history) && Drift(history) != 0)
  {
    CountersFollow(history);
    var start := Start(AfterReads(history), offset);
    if start == offset {
      forall lob: Bytes | |lob| == size
        ensures Served(AfterReads(history), lob, |lob|, offset, charstoread) == Requested(lob, offset, charstoread)
      {
        ServedIsRequested(AfterReads(history), lob, offset, charstoread);
      }
    } else {
      var lob := OneByte(size, offset);
      ServedIsRequested(AfterReads(history), lob, offset, charstoread);
      ReadElsewhere(lob, start, offset, charstoread);
    }
  }

  lemma ReadElsewhere(lob: Bytes, start: nat, offset: nat, charstoread: nat)
    requires lob == OneByte(|lob|, offset) && offset <= |lob| && start != offset && charstoread > 0
    ensures Requested(lob, start, charstoread) != Requested(lob, offset, charstoread)
  {
    if start < |lob| && offset < |lob| {
      assert Requested(lob, start, charstoread).value[0] == 0;
      assert Requested(lob, offset, charstoread).value[0] == 1;
    }
  }

  // ------------------------------------------------------------ runs

  /** A LOB, where to read it, how much, and how much room there is. */
  datatype Request = Request(lob: Bytes, offset: nat, charstoread: nat, room: nat)

  predicate IsRequest(r: Request) {
    |r.lob| <= MAX_SQLINTEGER && r.charstoread <= MAX_REQUEST
  }

  /** A read was answered as the counters before it say. */
  ghost predicate Answers(c: Counters, request: Request, read: Read, bytes: Bytes) {
    var served := Served(c, request.lob, |request.lob|, request.offset, request.charstoread);
    && (read.ok <==> served.Some?)
    && (read.ok ==>
         && read.passed == |served.value| && read.stored == |bytes| <= request.room
         && bytes <= served.value && (|served.value| < request.room ==> bytes == served.value))
  }

  /** Reads a new field any number of times, of LOBs that may differ, each after its length has been asked
      for. The counters are those of the reads made, whatever fails; and if DB2 doesn't fail each read is
      answered as they say. */
  method ReadField(field: LobField, driver: Driver, requests: seq<Request>)
      returns (history: seq<Read>, results: seq<Bytes>)
    requires field.Valid() && field.State() == INITIAL_COUNTERS && forall r :: r in requests ==> IsRequest(r)
    modifies field, driver
    ensures |history| == |results| == |requests| && field.State() == AfterReads(history)
    ensures forall i :: 0 <= i < |requests| ==> history[i].offset == requests[i].offset
    ensures !driver.failed ==> forall i :: 0 <= i < |requests| ==>
      Answers(AfterReads(history[..i]), requests[i], history[i], results[i])
  {
    hide AfterReads, Served, Answers;
    history, results := [], [];
    NoReads();
    while |history| < |requests|
      invariant |history| == |results| <= |requests| && field.Valid() && field.State() == AfterReads(history)
      invariant forall i :: 0 <= i < |history| ==> history[i].offset == requests[i].offset
      invariant !driver.failed ==> forall i :: 0 <= i < |history| ==>
        Answers(AfterReads(history[..i]), requests[i], history[i], results[i])
      decreases |requests| - |history|
    {
      ghost var sofar := history;
      var read, bytes := ReadOnce(field, driver, requests[|history|]);
      AfterOneMore(sofar, read);
      history, results := history + [read], results + [bytes];
      assert forall i :: 0 <= i <= |sofar| ==> history[..i] == sofar[..i];
      assert sofar[..|sofar|] == sofar;
    }
  }

  /** Asks for the length, and goes on whether or not that failed. */
  method ReadOnce(field: LobField, driver: Driver, request: Request) returns (read: Read, bytes: Bytes)
    requires field.Valid() && IsRequest(request)
    modifies field, driver
    ensures field.Valid() && read.offset == request.offset
    ensures old(driver.failed) ==> driver.failed
    ensures !driver.failed ==> Answers(old(field.State()), request, read, bytes)
    ensures field.State() ==
      var start := Start(old(field.State()), read.offset);
      if read.ok then Counters(start + read.passed, read.offset + read.stored)
      else Counters(start, old(field.State()).nextoffset)
  {
    hide Served;
    var buffer := new bv8[request.room];
    var known, length := field.GetLobFieldLength(driver, request.lob);
    var start := if request.offset == field.lobnextoffset then field.lobcharposition else request.offset;
    var ok, charsread := field.GetLobFieldSegment(driver, request.lob, buffer, request.offset, request.charstoread);
    if !ok {
      return Read(request.offset, false, 0, 0), [];
    }
    bytes := buffer[..charsread];
    read := Read(request.offset, true, field.lobcharposition - start, charsread);
  }

  lemma NoReads()
    ensures AfterReads([]) == INITIAL_COUNTERS
  {
  }

  lemma AfterOneMore(history: seq<Read>, read: Read)
    ensures AfterReads(history + [read]) ==
      var c := AfterReads(history);
      var start := Start(c, read.offset);
      if read.ok then Counters(start + read.passed, read.offset + read.stored)
      else Counters(start, c.nextoffset)
  {
    assert (history + [read])[..|history|] == history;
  }

  /** For example: once a new field has been read past its end, which fails, reading it at 0 fails too. */
  method ReadPastTheEndFirst(lob: Bytes, past: nat) returns (history: seq<Read>, failed: bool)
    requires |lob| < past && |lob| <= MAX_SQLINTEGER
    ensures !failed ==> |history| == 2 && history[1].offset == 0 && !history[0].ok && !history[1].ok
  {
    var field := new LobField();
    var driver := new Driver();
    var requests := [Request(lob, past, 1, 2), Request(lob, 0, 1, 2)];
    var results;
    history, results := ReadField(field, driver, requests);
    failed := driver.failed;
    NoReads();
    if !failed {
      assert history[..0] == [] && history[..1] == [] + [history[0]];
      assert Answers(AfterReads(history[..0]), requests[0], history[0], results[0]);
      AfterOneMore([], history[0]);
      assert Answers(AfterReads(history[..1]), requests[1], history[1], results[1]);
    }
  }

  // ------------------------------------------------------------ a client

  /** Reads a LOB a piece at a time, each from where the last one ended, until nothing comes. If DB2 doesn't
      fail that is all of it, unless the counters were left apart with the last success ending at 0. */
  method BuildLobField(field: LobField, driver: Driver, lob: Bytes, lobbuffer: array<bv8>, charstoread: nat)
      returns (temp: Bytes)
    requires field.Valid() && |lob| <= MAX_SQLINTEGER && 1 <= charstoread < lobbuffer.Length <= MAX_REQUEST
    modifies field, driver, lobbuffer
    ensures
      var start := Start(old(field.State()), 0);
      if start > field.loblength then temp == [] else temp <= SubString(lob, start + 1, field.loblength - start)
    ensures !driver.failed ==>
      var start := Start(old(field.State()), 0);
      temp == if start > |lob| then [] else lob[start..]
  {
    hide SubString, Start;
    temp := [];
    var known, length := field.GetLobFieldLength(driver, lob);
    var offset := 0;
    ghost var start := Start(field.State(), 0);
    ghost var size := field.loblength;
    while true
      invariant offset == |temp| && Start(field.State(), offset) == start + offset
      invariant field.Valid() && field.loblength == size && (!driver.failed ==> size == |lob|)
      invariant if start > size then temp == [] else temp <= SubString(lob, start + 1, size - start)
      decreases size - offset
    {
      var ok, charsread := NextSegment(field, driver, lob, lobbuffer, offset, charstoread, start);
      if !ok || charsread == 0 {
        break;
      }
      NextPiece(lob, start, size, temp, lobbuffer[..charsread], Db2Fetch.Min(charstoread, size - (start + offset)));
      temp := temp + lobbuffer[..charsread];
      offset := offset + charsread;
    }
    if !driver.failed && start <= |lob| {
      SubStringInRange(lob, start + 1, |lob| - start);
    }
  }

  /** One of those reads, into a buffer that has room for it. */
  method NextSegment(field: LobField, driver: Driver, lob: Bytes, lobbuffer: array<bv8>, offset: nat, charstoread: nat,
                     ghost start: nat)
      returns (ok: bool, charsread: nat)
    requires field.Valid() && 1 <= charstoread < lobbuffer.Length <= MAX_REQUEST
    requires Start(field.State(), offset) == start + offset
    modifies field`lobcharposition, field`lobnextoffset, driver, lobbuffer
    ensures old(driver.failed) ==> driver.failed
    ensures !driver.failed && (!ok || charsread == 0) ==> start + offset >= field.loblength
    ensures ok ==>
      && start + offset <= field.loblength && charsread <= lobbuffer.Length
      && charsread == Db2Fetch.Min(charstoread, field.loblength - (start + offset))
      && lobbuffer[..charsread] == SubString(lob, start + offset + 1, charsread)
      && Start(field.State(), offset + charsread) == start + offset + charsread
  {
    hide SubString;
    ok, charsread := field.GetLobFieldSegment(driver, lob, lobbuffer, offset, charstoread);
    if ok {
      ghost var served := SubString(lob, start + offset + 1, charsread);
      assert served[..charsread] == served;
    }
  }

  lemma NextPiece(lob: Bytes, start: nat, size: nat, temp: Bytes, piece: Bytes, n: nat)
    requires start + |temp| + n <= size
    requires temp <= SubString(lob, start + 1, size - start) && piece <= SubString(lob, start + |temp| + 1, n)
    ensures temp + piece <= SubString(lob, start + 1, size - start)
  {
    var whole := SubString(lob, start + 1, size - start);
    assert forall i :: 0 <= i < |piece| ==> piece[i] == whole[|temp| + i];
  }
}
