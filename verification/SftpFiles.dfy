/** Files of an SFTP server (class SftpFile of sftp.cc): eight reads in flight
    ahead of the reader, and writes whose statuses are collected later. */
module SftpFiles {
  import opened Bytes
  import opened BufferedFile
  import opened SftpWire
  import opened SftpEngine

  const QUEUE_SIZE := 8
  /** Sizes are of type int. */
  const MAX_SPACE: nat := 0x7FFF_FFFF
  /** Files are smaller than this, as file offsets are signed. */
  const MAX_FILE: nat := 0x7FFF_FFFF_FFFF_FFFF

  /** Offset and length asked for. */
  type Range = (nat, nat)

  /** The queued ranges follow one another from `base` to `end`. */
  ghost predicate Consecutive(ranges: seq<Range>, base: nat, end: nat)
  {
    if ranges == [] then base == end
    else ranges[0].0 == base && 0 < ranges[0].1 <= MAX_SPACE && Consecutive(ranges[1..], base + ranges[0].1, end)
  }

  /** The request with id `id` was a read of `range`, and can be awaited. */
  ghost predicate ReadPending(id: Id, range: Range, content: Bytes, waiting: set<Id>, answers: map<Id, Reply>)
  {
    id in waiting && id in answers && ReadAnswer(content, range.0, range.1, answers[id])
  }

  lemma {:induction false} ConsecutiveSnoc(ranges: seq<Range>, base: nat, end: nat, len: nat)
    requires Consecutive(ranges, base, end) && 0 < len <= MAX_SPACE
    ensures Consecutive(ranges + [(end, len)], base, end + len)
  {
    if ranges == [] {
      assert (ranges + [(end, len)])[1..] == [];
    } else {
      ConsecutiveSnoc(ranges[1..], base + ranges[0].1, end, len);
      assert (ranges + [(end, len)])[1..] == ranges[1..] + [(end, len)];
    }
  }

  lemma {:induction false} ConsecutiveEnd(ranges: seq<Range>, base: nat, end: nat)
    requires Consecutive(ranges, base, end)
    ensures base <= end <= base + |ranges| * MAX_SPACE
  {
    if ranges != [] {
      ConsecutiveEnd(ranges[1..], base + ranges[0].1, end);
    }
  }

  /** How many ranges begin at `size` or after it. */
  ghost function Beyond(ranges: seq<Range>, size: nat): (n: nat)
    ensures n <= |ranges|
  {
    if ranges == [] then 0
    else (if ranges[0].0 >= size then 1 else 0) + Beyond(ranges[1..], size)
  }

  lemma {:induction false} BeyondSnoc(ranges: seq<Range>, range: Range, size: nat)
    ensures Beyond(ranges + [range], size) == Beyond(ranges, size) + if range.0 >= size then 1 else 0
  {
    if ranges != [] {
      assert (ranges + [range])[1..] == ranges[1..] + [range];
      BeyondSnoc(ranges[1..], range, size);
    }
  }

  lemma {:induction false} AllBeyond(ranges: seq<Range>, base: nat, end: nat, size: nat)
    requires Consecutive(ranges, base, end) && base >= size
    ensures Beyond(ranges, size) == |ranges|
  {
    if ranges != [] {
      AllBeyond(ranges[1..], base + ranges[0].1, end, size);
    }
  }

  /** The number of reads still to be sent: those that bring the rest of the
      file, and so many that a whole queue of them asks for nothing. */
  ghost function StillToSend(eof: bool, readoffset: nat, ranges: seq<Range>, size: nat, space: nat): nat
    requires space > 0 && |ranges| <= QUEUE_SIZE
  {
    if eof then 0
    else PieceCount(if readoffset < size then size - readoffset else 0, space) + QUEUE_SIZE - Beyond(ranges, size)
  }

  /** A read sent is one read less to be sent. */
  lemma {:induction false} OneMoreSent(readoffset: nat, ranges: seq<Range>, size: nat, space: nat)
    requires space > 0 && |ranges| < QUEUE_SIZE
    ensures StillToSend(false, readoffset, ranges, size, space) ==
            1 + StillToSend(false, readoffset + space, ranges + [(readoffset, space)], size, space)
  {
    BeyondSnoc(ranges, (readoffset, space), size);
  }

  datatype ReadOutcome = Got(data: Bytes) | ReadError(code: nat)

  class SftpFile {
    const fs: Sftp
    const path: Path
    const handle: Bytes
    var readqueue: seq<Id>
    var readbuffer: Bytes
    var readoffset: nat
    var eof: bool
    var writequeue: seq<Id>
    var writeoffset: nat

    /** How much was handed out, where the front of the queue reads, and what
        each queued read asked for. */
    ghost var pos: nat
    ghost var base: nat
    ghost var ranges: seq<Range>

    ghost function Content(): Bytes
      requires path in fs.server.files
      reads fs.server
    {
      fs.server.files[path]
    }

    ghost predicate Open()
      reads fs, fs.server
    {
      && fs.Valid() && |handle| < UINT32
      && handle in fs.server.handles && fs.server.handles[handle] == path
      && path in fs.server.files && |Content()| <= MAX_FILE
    }

    /** The reads in flight ask for consecutive ranges, and each will be answered
        for its own. */
    ghost predicate Pending()
      reads `readqueue, `ranges, `base, `readoffset, fs, fs.server
    {
      && Open()
      && |readqueue| == |ranges| <= QUEUE_SIZE
      && Consecutive(ranges, base, readoffset)
      && (forall k :: 0 <= k < |readqueue| ==>
            ReadPending(readqueue[k], ranges[k], Content(), fs.Waiting(), fs.server.answers))
      && (forall k :: 0 <= k < |readqueue| ==> readqueue[k] !in fs.InflightIds())
      && Distinct(readqueue)
    }

    /** A request of this file. */
    ghost predicate ReadAsked(id: Id, range: Range)
      reads fs.server`asked
    {
      id in fs.server.asked && fs.server.asked[id] == Read(handle, range.0, range.1)
    }

    /** The server turned one of the reads of this file down. */
    ghost predicate ReadRefused(code: nat)
      reads fs.server`asked, fs.server`answers
    {
      exists id :: TurnedDown(fs.server.Past(), id, code) && fs.server.asked[id].Read?
                   && fs.server.asked[id].handle == handle
    }

    ghost predicate Streaming()
      reads this, fs, fs.server
    {
      && Pending() && (forall k :: 0 <= k < |readqueue| ==> ReadAsked(readqueue[k], ranges[k]))
      && pos <= Min(base, |Content()|) && readbuffer == Content()[pos..Min(base, |Content()|)]
      && (!eof ==> base <= |Content()| + MAX_SPACE)
      && (eof ==> readqueue == [] && base >= |Content()|)
    }

    /** The number of ids that reading to the end takes. */
    ghost function Ahead(space: nat): nat
      requires space > 0 && |ranges| <= QUEUE_SIZE && path in fs.server.files
      reads `eof, `readoffset, `ranges, fs.server
    {
      StillToSend(eof, readoffset, ranges, |Content()|, space)
    }

    lemma AheadAtEnd(space: nat)
      requires space > 0 && |ranges| <= QUEUE_SIZE && path in fs.server.files && eof
      ensures Ahead(space) == 0
    {
    }

    lemma AheadOfFilling(space: nat)
      requires space > 0 && Pending()
      ensures !eof ==> Ahead(space) >= QUEUE_SIZE - |readqueue|
    {
    }

    constructor (fs: Sftp, path: Path, handle: Bytes)
      requires fs.Valid() && |handle| < UINT32
      requires handle in fs.server.handles && fs.server.handles[handle] == path && path in fs.server.files
      requires |fs.server.files[path]| <= MAX_FILE
      ensures this.fs == fs && this.path == path && this.handle == handle
      ensures Streaming() && pos == 0 && readqueue == [] && !eof && readoffset == 0
      ensures writequeue == [] && writeoffset == 0
    {
      this.fs := fs;
      this.path := path;
      this.handle := handle;
      readqueue, readbuffer, readoffset, eof := [], [], 0, false;
      writequeue, writeoffset := [], 0;
      pos, base, ranges := 0, 0, [];
    }

    // Reading -----------------------------------------------------------------------

    /** Asks for the next `space` octets. */
    method SendRead(space: nat)
      requires Streaming() && !eof && |readqueue| < QUEUE_SIZE && 0 < space <= MAX_SPACE
      requires fs.issued < ID_PERIOD
      modifies `readqueue, `readoffset, `ranges, fs, fs.server
      ensures Streaming() && |readqueue| == |old(readqueue)| + 1 && fs.issued == old(fs.issued) + 1
      ensures fs.server.files == old(fs.server.files)
      ensures 1 + Ahead(space) == old(Ahead(space))
    {
      hide Sftp.Valid, ReadAnswer, Served, Reply.Fits, Consecutive, Sftp.Waiting, Sftp.InflightIds, StillToSend;
      OneMoreSent(readoffset, ranges, |Content()|, space);
      ConsecutiveEnd(ranges, base, readoffset);
      ghost var files, handles := fs.server.files, fs.server.handles;
      var q := Read(handle, readoffset, space);
      var id := fs.Call(q);
      ServedRead(q, files, handles, fs.server.answers[id], fs.server.files, fs.server.handles);
      ConsecutiveSnoc(ranges, base, readoffset, space);
      ranges := ranges + [(readoffset, space)];
      readoffset := readoffset + space;
      readqueue := readqueue + [id];
    }

    /** Waits for the reply to the oldest read. */
    method TakeFront(ghost space: nat) returns (error: Option<nat>)
      requires Streaming() && readbuffer == [] && readqueue != [] && space > 0
      modifies this, fs`replies, fs`ignored, fs`place, fs.server`undelivered
      ensures fs.Valid() && pos == old(pos) && writequeue == old(writequeue) && writeoffset == old(writeoffset)
      // an error is reported exactly if the server reported one
      ensures error.Some? ==> ReadRefused(error.value)
      ensures old(readqueue)[0] in fs.server.answers
      ensures error.Some? <==> Failure(fs.server.answers[old(readqueue)[0]])
      ensures error.None? ==> Streaming() && (readbuffer == [] <==> eof) && (eof ==> pos == |Content()|)
      ensures error.None? && |old(readqueue)| == QUEUE_SIZE ==> Ahead(space) == old(Ahead(space))
    {
      hide Sftp.Valid, Pending, Sftp.Waiting, Sftp.InflightIds, EncodeReply, Uint32At, StringAt, StillToSend,
           ReadAsked, ReadRefused;
      RefusedFront();
      ghost var start, front := base, readqueue[0];
      FrontTaken(space);
      var reply := AwaitFront();
      assert pos == Min(start, |Content()|);
      assert forall k :: 0 <= k < |readqueue| ==>
                           readqueue[k] == old(readqueue)[k + 1] && ranges[k] == old(ranges)[k + 1];
      if reply[0] as int == SSH_FXP_DATA {
        readbuffer := StringAt(reply, 5).value.0;
        return None;
      }
      var code := Uint32At(reply, 5).value;
      if code != SSH_FX_OK && code != SSH_FX_EOF {
        return Some(code);
      }
      EndReading();
      AheadAtEnd(space);
      return None;
    }

    lemma RefusedFront()
      requires Streaming() && readqueue != []
      ensures |ranges| == |readqueue| && readqueue[0] in fs.server.answers
      ensures Failure(fs.server.answers[readqueue[0]]) ==> ReadRefused(fs.server.answers[readqueue[0]].code)
    {
      hide Sftp.Valid, Sftp.Waiting, Sftp.InflightIds, Consecutive, Distinct, ReadAnswer;
      var id := readqueue[0];
      assert ReadPending(id, ranges[0], Content(), fs.Waiting(), fs.server.answers);
      if Failure(fs.server.answers[id]) {
        assert ReadAsked(id, ranges[0]);
        assert TurnedDown(fs.server.Past(), id, fs.server.answers[id].code);
      }
    }

    /** Takes the oldest read out of the queue and waits for its answer. */
    method AwaitFront() returns (reply: Bytes)
      requires Pending() && readqueue != []
      modifies `readqueue, `ranges, `base, fs`replies, fs`ignored, fs`place, fs.server`undelivered
      ensures Pending() && Open() && old(base) < base <= old(base) + MAX_SPACE && ranges == old(ranges)[1..]
      ensures |reply| >= 5
      ensures old(readqueue)[0] in fs.server.answers && readqueue == old(readqueue)[1..] && |ranges| == |readqueue|
      ensures var answer := fs.server.answers[old(readqueue)[0]];
              && (reply[0] as int == SSH_FXP_DATA <==> answer.Data?)
              && (reply[0] as int != SSH_FXP_DATA ==> answer.Status? && Uint32At(reply, 5) == Some(answer.code))
      ensures if reply[0] as int == SSH_FXP_DATA then
                && old(base) < |Content()| && StringAt(reply, 5).Some?
                && StringAt(reply, 5).value.0 == Content()[old(base)..Min(base, |Content()|)]
              else
                && Uint32At(reply, 5).Some? && Uint32At(reply, 5).value != SSH_FX_OK
                && (Uint32At(reply, 5).value == SSH_FX_EOF ==> old(base) >= |Content()|)
    {
      hide Sftp.Valid, ReadAnswer, ReadPending, Reply.Fits, Sftp.Waiting, Sftp.InflightIds, EncodeReply, Uint32At,
           StringAt, Consecutive;
      var id := readqueue[0];
      ghost var range := ranges[0];
      PendingTail();
      readqueue := readqueue[1..];
      ranges := ranges[1..];
      base := base + range.1;
      reply := fs.AwaitOwn(id);
      ReadReply(Content(), range, id, fs.server.answers[id]);
    }

    /** At the end of the file the reads still in flight are of no interest. */
    method EndReading()
      requires Pending() && readbuffer == [] && pos == |Content()| <= base
      modifies `readqueue, `ranges, `base, `eof, fs`replies, fs`ignored, fs`place
      ensures fs.Valid() && Streaming() && readqueue == [] && eof && ranges == []
    {
      hide Sftp.Valid, Sftp.Waiting, Sftp.InflightIds, Consecutive;
      ConsecutiveEnd(ranges, base, readoffset);
      IgnoreQueue();
      NothingLeft();
      eof := true;
    }

    /** Taking the front leaves as many reads to be sent as before, unless it
        asked for nothing; then a full queue asks for nothing at all. */
    lemma FrontTaken(space: nat)
      requires Pending() && readqueue != [] && space > 0
      ensures var size := |Content()|;
              var left := StillToSend(false, readoffset, ranges[1..], size, space);
              && (base < size ==> StillToSend(false, readoffset, ranges, size, space) == left)
              && (base >= size && |readqueue| == QUEUE_SIZE ==>
                    StillToSend(false, readoffset, ranges, size, space) == 0)
    {
      hide ReadPending, Sftp.Valid, Sftp.Waiting, Sftp.InflightIds;
      ConsecutiveEnd(ranges, base, readoffset);
      if base >= |Content()| {
        AllBeyond(ranges, base, readoffset, |Content()|);
      }
    }

    lemma NothingLeft()
      requires ranges == [] && base == readoffset
      ensures Consecutive(ranges, base, readoffset)
    {
    }

    /** What remains pending without the front. */
    lemma PendingTail()
      requires Pending() && readqueue != []
      ensures Consecutive(ranges[1..], base + ranges[0].1, readoffset) && ranges[0].0 == base
      ensures 0 < ranges[0].1 <= MAX_SPACE
      ensures forall k :: 0 <= k < |readqueue| - 1 ==>
                ReadPending(readqueue[1..][k], ranges[1..][k], Content(), fs.Waiting() - {readqueue[0]},
                            fs.server.answers)
      ensures forall k :: 0 <= k < |readqueue| - 1 ==> readqueue[1..][k] !in fs.InflightIds()
      ensures ReadPending(readqueue[0], ranges[0], Content(), fs.Waiting(), fs.server.answers)
      ensures readqueue[0] in fs.Waiting() && readqueue[0] in fs.server.answers
      ensures ReadAnswer(Content(), ranges[0].0, ranges[0].1, fs.server.answers[readqueue[0]])
      ensures readqueue[0] !in fs.InflightIds()
    {
    }

    /** At the end of the file nobody needs the other answers. */
    method IgnoreQueue()
      requires fs.Valid()
      requires forall k :: 0 <= k < |readqueue| ==> readqueue[k] in fs.Waiting() && readqueue[k] !in fs.InflightIds()
      requires Distinct(readqueue)
      modifies `readqueue, `ranges, `base, fs`replies, fs`ignored, fs`place
      ensures fs.Valid() && readqueue == [] && ranges == [] && base == readoffset
    {
      hide Sftp.Valid, Sftp.Waiting, Sftp.InflightIds;
      while readqueue != []
        invariant fs.Valid()
        invariant forall k :: 0 <= k < |readqueue| ==> readqueue[k] in fs.Waiting() && readqueue[k] !in fs.InflightIds()
        invariant Distinct(readqueue)
        decreases |readqueue|
      {
        fs.IgnoreOwn(readqueue[0]);
        readqueue := readqueue[1..];
      }
      ranges := [];
      base := readoffset;
    }

    /** `readbytes`: keeps eight reads in flight, and hands out the next piece
        of the file.  Nothing comes out only at its end. */
    method ReadBytes(space: nat) returns (r: ReadOutcome)
      requires Streaming() && 0 < space <= MAX_SPACE
      requires !eof ==> fs.issued + (QUEUE_SIZE - |readqueue|) <= ID_PERIOD
      modifies this, fs, fs.server
      ensures fs.Valid() && fs.server.files == old(fs.server.files)
      ensures fs.issued == old(fs.issued) + if old(eof) then 0 else QUEUE_SIZE - |old(readqueue)|
      ensures writequeue == old(writequeue) && writeoffset == old(writeoffset)
      ensures r.Got? ==>
                && Streaming() && pos == old(pos) + |r.data| && |r.data| <= space
                && r.data == Content()[old(pos)..pos]
                && (r.data == [] <==> old(pos) == |Content()|) && (r.data == [] ==> eof)
                // of the reads that the whole file takes, none is sent twice
                && fs.issued + Ahead(space) == old(fs.issued + Ahead(space))
      ensures r.ReadError? ==> ReadRefused(r.code)
    {
      hide Sftp.Valid, Sftp.Waiting, Sftp.InflightIds, Consecutive, ReadPending, StillToSend, ReadRefused, Failure,
           ReadAsked;
      if !eof && |readqueue| < QUEUE_SIZE {
        while |readqueue| < QUEUE_SIZE
          invariant Streaming() && !eof && pos == old(pos) && |readqueue| <= QUEUE_SIZE
          invariant fs.server.files == old(fs.server.files)
          invariant fs.issued == old(fs.issued) + (|readqueue| - |old(readqueue)|)
          invariant fs.issued + Ahead(space) == old(fs.issued + Ahead(space))
          invariant writequeue == old(writequeue) && writeoffset == old(writeoffset)
          decreases QUEUE_SIZE - |readqueue|
        {
          SendRead(space);
        }
      }
      if |readbuffer| == 0 && |readqueue| > 0 {
        var error := TakeFront(space);
        if error.Some? {
          return ReadError(error.value);
        }
      } else if |readbuffer| == 0 {
        Exhausted();
      }
      if |readbuffer| > 0 {
        var data := HandOut(space);
        return Got(data);
      }
      return Got([]);
    }

    method HandOut(space: nat) returns (data: Bytes)
      requires Streaming() && readbuffer != [] && space > 0
      modifies `readbuffer, `pos
      ensures Streaming() && pos == old(pos) + |data| && 0 < |data| <= space
      ensures data == Content()[old(pos)..pos]
    {
      hide Sftp.Valid, Sftp.Waiting, Sftp.InflightIds, Consecutive, ReadPending;
      var n := if |readbuffer| < space then |readbuffer| else space;
      data := readbuffer[..n];
      readbuffer := readbuffer[n..];
      pos := pos + n;
    }

    /** With nothing buffered and nothing queued the reader is at the end. */
    lemma Exhausted()
      requires Streaming() && readbuffer == [] && readqueue == [] && eof
      ensures pos == |Content()|
    {
    }

    /** The file from `start` to the reader has been handed out, and `total` ids
        will be used in the end. */
    ghost predicate HandedOut(content: Bytes, start: nat, all: Bytes, space: nat, total: nat)
      requires space > 0
      reads this, fs, fs.server
    {
      && Streaming() && Content() == content && start <= pos && all == content[start..pos]
      && fs.issued + Ahead(space) == total <= ID_PERIOD
    }

    method ReadNext(ghost content: Bytes, ghost start: nat, all: Bytes, space: nat,
                    ghost total: nat) returns (r: ReadOutcome)
      requires 0 < space <= MAX_SPACE && HandedOut(content, start, all, space, total)
      modifies this, fs, fs.server
      ensures fs.Valid() && fs.server.files == old(fs.server.files)
      ensures r.Got? ==>
                && HandedOut(content, start, all + r.data, space, total) && |all + r.data| <= |content|
                && (r.data == [] ==> all == content[start..] && fs.issued == total)
      ensures r.ReadError? ==> ReadRefused(r.code)
    {
      hide Sftp.Valid, Sftp.Waiting, Sftp.InflightIds, Consecutive, ReadPending, Distinct, StillToSend, ReadRefused,
           ReadAsked;
      AheadOfFilling(space);
      r := ReadBytes(space);
      if r.Got? && r.data == [] {
        AheadAtEnd(space);
        assert all + r.data == all;
      }
    }

    /** Reading until nothing comes: the whole file from where the reader was,
        each octet once and in order, or an error that the server answered one
        of the reads of this file with; there is no other.  One id is
        used for each piece of the file, and eight more at its end. */
    method ReadToEnd(space: nat) returns (all: Bytes, error: Option<nat>)
      requires Streaming() && 0 < space <= MAX_SPACE
      requires fs.issued + Ahead(space) <= ID_PERIOD
      modifies this, fs, fs.server
      ensures fs.Valid() && fs.server.files == old(fs.server.files)
      ensures error.None? ==> all == old(Content()[pos..]) && fs.issued == old(fs.issued + Ahead(space))
      ensures error.Some? ==> ReadRefused(error.value)
    {
      hide Sftp.Valid, Sftp.Waiting, Sftp.InflightIds, Consecutive, ReadPending, Distinct, StillToSend, ReadRefused,
           ReadAsked;
      all := [];
      ghost var start, content, total := pos, Content(), fs.issued + Ahead(space);
      assert HandedOut(content, start, all, space, total);
      hide Streaming, HandedOut;
      var r := ReadNext(content, start, all, space, total);
      while r.Got? && r.data != []
        invariant fs.Valid() && fs.server.files == old(fs.server.files)
        invariant r.ReadError? ==> ReadRefused(r.code)
        invariant r.Got? ==> HandedOut(content, start, all + r.data, space, total) && |all + r.data| <= |content|
        invariant r.Got? && r.data == [] ==> all == content[start..] && fs.issued == total
        decreases if r.ReadError? then 0 else |content| - |all| + if r.data == [] then 0 else 1
      {
        all := all + r.data;
        r := ReadNext(content, start, all, space, total);
      }
      error := if r.ReadError? then Some(r.code) else None;
    }

    /** A file just opened: as many ids as it has pieces, and eight. */
    lemma AheadOfNewFile(space: nat)
      requires Streaming() && space > 0 && readqueue == [] && !eof && readoffset == 0
      ensures Ahead(space) == (|Content()| + (space - 1)) / space + QUEUE_SIZE
    {
      hide Sftp.Valid, Sftp.Waiting, Sftp.InflightIds, Consecutive, ReadPending, Distinct;
      PieceCountIsCeiling(|Content()|, space);
    }

    // Writing ------------------------------------------------------------------------

    /** The writes whose status was not collected yet, each answered by a
        status of its own. */
    ghost predicate Collecting()
      reads this, fs, fs.server
    {
      && fs.Valid()
      && (forall k :: 0 <= k < |writequeue| ==>
            && writequeue[k] in fs.Waiting() && writequeue[k] in fs.server.answers && writequeue[k] != 0
            && fs.server.answers[writequeue[k]].Status? && writequeue[k] !in fs.InflightIds())
      && Distinct(writequeue)
    }

    /** A write of this file, asked since then. */
    ghost predicate WriteAsked(past: Record, id: Id)
      reads fs.server`asked
    {
      && id !in past.asked && id in fs.server.asked && fs.server.asked[id].Write?
      && fs.server.asked[id].handle == handle
    }

    /** The server turned down a write of this file, asked since then. */
    ghost predicate WriteRefused(past: Record, code: nat)
      reads fs.server`asked, fs.server`answers
    {
      exists id :: WriteAsked(past, id) && TurnedDown(fs.server.Past(), id, code)
    }

    ghost predicate Accepted(id: Id)
      reads fs.server`answers
    {
      id in fs.server.answers && fs.server.answers[id].Status? && fs.server.answers[id].code == SSH_FX_OK
    }

    /** Collects a status: waits for the front of the queue, but takes `which`
        out of the queue (zero stands for the front). */
    method SynchronizeOne(which: Id) returns (error: Option<nat>)
      requires Collecting() && writequeue != [] && (which == 0 || which in writequeue)
      modifies `writequeue, fs`replies, fs`ignored, fs`place, fs.server`undelivered
      ensures fs.Valid() && fs.Waiting() == old(fs.Waiting()) - {old(writequeue)[0]}
      ensures writequeue == Without(old(writequeue), if which == 0 then old(writequeue)[0] else which)
      ensures error == None <==> Accepted(old(writequeue)[0])
      ensures old(writequeue)[0] in fs.server.answers && fs.server.answers[old(writequeue)[0]].Status?
      ensures error.Some? ==> error.value == fs.server.answers[old(writequeue)[0]].code
      // all that is still queued can be waited for exactly if the front was collected
      ensures Collecting() <==> which == 0 || which == old(writequeue)[0]
      ensures old(writequeue)[0] in fs.place && fs.place[old(writequeue)[0]] == Consumed
      ensures which != 0 && which != old(writequeue)[0] ==> old(writequeue)[0] in writequeue
    {
      hide Sftp.Valid, Sftp.Waiting, Sftp.InflightIds, EncodeReply, Uint32At, StringAt, Reply.Fits, Without;
      WithoutKeeps(writequeue, if which == 0 then writequeue[0] else which);
      WithoutDistinct(writequeue, if which == 0 then writequeue[0] else which);
      var id := if which == 0 then writequeue[0] else which;
      var reply := fs.AwaitOwn(writequeue[0]);
      ReplyFields(writequeue[0], fs.server.answers[writequeue[0]]);
      ghost var before := writequeue;
      writequeue := Without(writequeue, id);
      if before[0] in writequeue {
        ghost var k :| 0 <= k < |writequeue| && writequeue[k] == before[0];
      } else {
        forall k | 0 <= k < |writequeue|
          ensures writequeue[k] in before && writequeue[k] != before[0]
        {
          assert writequeue[k] in writequeue;
        }
      }
      var code := Uint32At(reply, 5).value;
      error := if code == SSH_FX_OK then None else Some(code);
    }

    /** Collects every status; stops at the first refusal. */
    method Synchronize() returns (error: Option<nat>)
      requires Collecting()
      modifies `writequeue, fs`replies, fs`ignored, fs`place, fs.server`undelivered
      ensures Collecting()
      ensures error == None <==> forall k :: 0 <= k < |old(writequeue)| ==> Accepted(old(writequeue)[k])
      ensures error.Some? ==> exists k :: 0 <= k < |old(writequeue)| && !Accepted(old(writequeue)[k])
                                          && old(writequeue)[k] in fs.server.answers
                                          && fs.server.answers[old(writequeue)[k]].Status?
                                          && fs.server.answers[old(writequeue)[k]].code == error.value
      ensures error == None || |old(writequeue)| == 1 ==> writequeue == []
      ensures fs.issued == old(fs.issued)
      ensures forall i :: i in old(fs.Waiting()) && i !in old(writequeue) ==> i in fs.Waiting()
    {
      hide Sftp.Valid, Sftp.Waiting, Sftp.InflightIds, Accepted;
      ghost var n := 0;
      while |writequeue| > 0
        invariant forall i :: i in old(fs.Waiting()) && i !in old(writequeue) ==> i in fs.Waiting()
        invariant Collecting() && n <= |old(writequeue)| && writequeue == old(writequeue)[n..]
        invariant forall k :: 0 <= k < n ==> Accepted(old(writequeue)[k])
        decreases |writequeue|
      {
        WithoutFront(writequeue);
        var e := SynchronizeOne(0);
        if e.Some? {
          assert !Accepted(old(writequeue)[n]);
          return e;
        }
        n := n + 1;
      }
      error := None;
    }

    /** The reply has not been taken off the wire. */
    ghost predicate StillAway(id: Id)
      reads fs`place
    {
      id !in fs.place || fs.place[id] != Stashed
    }

    /** A write whose status has arrived, or zero. */
    method FindReadyWrite() returns (id: Id)
      requires Collecting()
      ensures id != 0 ==> id in writequeue
      ensures id == 0 ==> forall k :: 0 <= k < |writequeue| ==> StillAway(writequeue[k])
    {
      hide Sftp.InflightIds, Sftp.Prefetching, Ledger.InPlace;
      for n := 0 to |writequeue|
        invariant forall k :: 0 <= k < n ==> StillAway(writequeue[k])
      {
        var ready := fs.Ready(writequeue[n]);
        if ready {
          return writequeue[n];
        }
      }
      return 0;
    }

    /** One write request behind the last. */
    method SendWrite(data: Bytes) returns (id: Id)
      requires Open() && Collecting() && writequeue == [] && writeoffset == |Content()| && data != []
      requires fs.issued < ID_PERIOD && writeoffset + |data| <= MAX_FILE && |data| < UINT32
      modifies `writequeue, `writeoffset, fs, fs.server
      ensures Collecting() && writequeue == [id] && fs.server.handles == old(fs.server.handles)
      ensures WriteAsked(old(fs.server.Past()), id) && Remembered(old(fs.server.Past()), fs.server.Past())
      ensures fs.existence == old(fs.existence) && fs.existenceInflight == old(fs.existenceInflight)
      ensures fs.issued == old(fs.issued) + 1 && writeoffset == old(writeoffset) + |data|
      ensures if Accepted(id) then WrittenTo(old(fs.server.files), data) else fs.server.files == old(fs.server.files)
    {
      hide Sftp.Valid, Sftp.Waiting, Sftp.InflightIds, Served, Reply.Fits, WriteAt, Remembered;
      ghost var files, handles := fs.server.files, fs.server.handles;
      var q := Write(handle, writeoffset, data);
      id := fs.Call(q);
      ServedWrite(q, files, handles, fs.server.answers[id], fs.server.files, fs.server.handles);
      writeoffset := writeoffset + |data|;
      writequeue := writequeue + [id];
    }

    /** Sends a write, then collects the statuses that are already there. */
    method WriteBytes(data: Bytes) returns (error: Option<nat>)
      requires Open() && Collecting() && writequeue == [] && writeoffset == |Content()|
      requires fs.issued < ID_PERIOD && writeoffset + |data| <= MAX_FILE && |data| < UINT32
      modifies `writequeue, `writeoffset, fs, fs.server
      ensures Collecting() && fs.server.handles == old(fs.server.handles)
      ensures fs.existence == old(fs.existence) && fs.existenceInflight == old(fs.existenceInflight)
      ensures fs.issued <= old(fs.issued) + 1
      ensures writeoffset == old(writeoffset) + |data|
      ensures if data == [] then writequeue == [] && error == None && fs.server.files == old(fs.server.files)
              else if error == None && writequeue == [] then WrittenTo(old(fs.server.files), data)
              else if error == None then
                && |writequeue| == 1
                && if Accepted(writequeue[0]) then WrittenTo(old(fs.server.files), data)
                   else fs.server.files == old(fs.server.files)
              else writequeue == [] && fs.server.files == old(fs.server.files)
      // an error is one that the server reported, and no status that is there is left
      ensures error.Some? ==> data != [] && WriteRefused(old(fs.server.Past()), error.value)
      ensures forall id :: id in writequeue ==> WriteAsked(old(fs.server.Past()), id) && StillAway(id)
      ensures Remembered(old(fs.server.Past()), fs.server.Past())
    {
      hide Sftp.Valid, Sftp.Waiting, Sftp.InflightIds, Served, Reply.Fits, WriteAt, Remembered, WriteAsked, StillAway;
      ghost var past := fs.server.Past();
      if |data| == 0 {
        RememberedSame(past);
        return None;
      }
      var id := SendWrite(data);
      error := CollectReady();
      if error.Some? {
        RefusedWrite(past, id);
      }
    }

    /** Collects the statuses that have arrived. */
    method CollectReady() returns (error: Option<nat>)
      requires Collecting() && |writequeue| == 1
      modifies `writequeue, fs`replies, fs`ignored, fs`place, fs.server`undelivered
      ensures Collecting() && (writequeue == [] || (error == None && writequeue == old(writequeue)))
      ensures writequeue == [] ==>
                var front := old(writequeue)[0];
                && front in fs.server.answers && fs.server.answers[front].Status?
                && error == if Accepted(front) then None else Some(fs.server.answers[front].code)
      ensures forall k :: 0 <= k < |writequeue| ==> StillAway(writequeue[k])
    {
      hide Sftp.Valid, Sftp.Waiting, Sftp.InflightIds, StillAway;
      error := None;
      var ready := FindReadyWrite();
      while ready != 0
        invariant Collecting() && (writequeue == old(writequeue) || (writequeue == [] && Accepted(old(writequeue)[0])))
        invariant error == None && (ready != 0 ==> ready in writequeue)
        invariant ready == 0 ==> forall k :: 0 <= k < |writequeue| ==> StillAway(writequeue[k])
        decreases |writequeue|
      {
        WithoutFront(writequeue);
        error := SynchronizeOne(ready);
        if error.Some? {
          return;
        }
        ready := FindReadyWrite();
      }
    }

    lemma RefusedWrite(past: Record, id: Id)
      requires WriteAsked(past, id) && id in fs.server.answers && fs.server.answers[id].Status? && !Accepted(id)
      ensures WriteRefused(past, fs.server.answers[id].code)
    {
      assert TurnedDown(fs.server.Past(), id, fs.server.answers[id].code);
    }

    /** Collecting another write than the front of the queue: the front stays
        queued although its reply is used up, and however many replies come in
        afterwards, the one that `synchronize` then waits for is not among
        them. */
    method CollectAndWait(which: Id, polls: nat) returns (arrived: bool)
      requires Collecting() && which in writequeue && which != writequeue[0]
      modifies `writequeue, fs`replies, fs`ignored, fs`place, fs.server`undelivered
      ensures writequeue != [] && writequeue[0] == old(writequeue)[0] && writequeue[0] !in fs.Waiting()
      ensures !arrived
    {
      hide Sftp.Prefetching, Sftp.Quiet, Sftp.InflightIds, Ledger.Balanced, Ledger.Arrival;
      var front := writequeue[0];
      WithoutLater(writequeue, which);
      var _ := SynchronizeOne(which);
      arrived := front in fs.replies;
      ConsumedStaysAway(fs.Books());
      for n := 0 to polls
        invariant fs.Accounted() && front in fs.place && fs.place[front] == Consumed && !arrived
        invariant writequeue != [] && writequeue[0] == front
      {
        if fs.server.undelivered != map[] {
          var _ := fs.Poll();
          arrived := front in fs.replies;
        }
      }
    }

    /** The destructor: it waits for the writes and closes the handle.  Reads in
        flight are left as they are; nobody will ask for their replies, and yet
        they are not ignored. */
    method Destroy() returns (error: Option<nat>)
      requires Open() && Collecting() && fs.issued < ID_PERIOD
      modifies `writequeue, fs`id, fs`issued, fs`unflushed, fs`replies, fs`ignored, fs`place, fs.server`undelivered
      ensures fs.Valid() && fs.issued <= old(fs.issued) + 1
      ensures forall i :: i in readqueue && i in old(fs.Waiting()) && i !in old(writequeue) ==> i in fs.Waiting()
      // nothing stays with the client exactly if no read was in flight
      ensures old(Pending()) && (forall i :: i in readqueue ==> i !in old(writequeue)) ==>
                ((forall i :: i in readqueue ==> i !in fs.Waiting()) <==> readqueue == [])
      ensures error == None ==> writequeue == []
      ensures error == None ==>
                fs.unflushed == old(fs.unflushed) + [(fs.issued, Close(handle))] && fs.issued in fs.ignored
    {
      hide Consecutive, ReadPending, Sftp.Valid, Sftp.Waiting, Sftp.InflightIds, Accepted;
      QueueWaits();
      error := Synchronize();
      assert readqueue != [] ==> readqueue[0] in readqueue;
      if error.Some? {
        return;
      }
      fs.CloseHandle(handle);
    }

    lemma QueueWaits()
      ensures Pending() ==> forall i :: i in readqueue ==> i in fs.Waiting()
    {
      hide Open, Consecutive, Sftp.Waiting, Sftp.InflightIds;
    }

    ghost predicate WrittenTo(files: Snapshot, data: Bytes)
      reads fs, fs.server
    {
      path in files && fs.server.files == files[path := files[path] + data]
    }

    /** The flush of the buffering layer: a write, then synchronization, so
        that at most one write is ever outstanding.  It succeeds exactly when
        the octets have been appended to the remote file. */
    method Flush(data: Bytes) returns (error: Option<nat>)
      requires Open() && Collecting() && writequeue == [] && writeoffset == |Content()|
      requires fs.issued < ID_PERIOD && writeoffset + |data| <= MAX_FILE && |data| < UINT32
      modifies `writequeue, `writeoffset, fs, fs.server
      ensures Collecting() && writequeue == [] && fs.server.handles == old(fs.server.handles)
      ensures fs.existence == old(fs.existence) && fs.existenceInflight == old(fs.existenceInflight)
      ensures fs.issued <= old(fs.issued) + 1
      ensures writeoffset == old(writeoffset) + |data|
      ensures error == None ==> WrittenTo(old(fs.server.files), data)
      ensures error.Some? ==> fs.server.files == old(fs.server.files)
      ensures error.Some? ==> data != [] && WriteRefused(old(fs.server.Past()), error.value)
      ensures Remembered(old(fs.server.Past()), fs.server.Past())
    {
      hide Sftp.Valid, Sftp.Waiting, Sftp.InflightIds, WriteAsked, StillAway, Remembered;
      ghost var content, past := Content(), fs.server.Past();
      error := WriteBytes(data);
      if error.Some? {
        return;
      }
      ghost var queue := writequeue;
      error := Synchronize();
      if error.Some? {
        assert queue[0] in queue;
        RefusedWrite(past, queue[0]);
      }
      assert data == [] ==> content + data == content;
    }
  }

  lemma {:induction false} ServedWrite(q: Request, files: Snapshot, handles: map<Bytes, Path>,
                                       r: Reply, files': Snapshot, handles': map<Bytes, Path>)
    requires q.Write? && Served(q, files, handles, r, files', handles')
    requires q.handle in handles && handles[q.handle] in files && q.offset == |files[handles[q.handle]]|
    ensures handles' == handles && r.Status?
    ensures var path := handles[q.handle];
            files' == if r.code == SSH_FX_OK then files[path := files[path] + q.data] else files
  {
    var content := files[handles[q.handle]];
    assert content[..|content|] == content;
    assert WriteAt(content, |content|, q.data) == content + q.data;
  }

  /** A queue without (the first occurrence of) an id. */
  function Without(queue: seq<Id>, id: Id): seq<Id>
  {
    if queue == [] then []
    else if queue[0] == id then queue[1..]
    else [queue[0]] + Without(queue[1..], id)
  }

  lemma {:induction false} WithoutFront(queue: seq<Id>)
    requires queue != []
    ensures Without(queue, queue[0]) == queue[1..]
  {
  }

  lemma {:induction false} WithoutKeeps(queue: seq<Id>, which: Id)
    requires Distinct(queue)
    ensures forall id :: id in Without(queue, which) <==> id in queue && id != which
  {
    if queue != [] {
      WithoutKeeps(queue[1..], which);
      assert queue == [queue[0]] + queue[1..];
      assert queue[0] !in queue[1..];
    }
  }

  lemma {:induction false} WithoutLater(queue: seq<Id>, which: Id)
    requires queue != [] && which != queue[0]
    ensures Without(queue, which) != [] && Without(queue, which)[0] == queue[0]
  {
  }

  ghost predicate Distinct(queue: seq<Id>)
  {
    forall j, k :: 0 <= j < k < |queue| ==> queue[j] != queue[k]
  }

  lemma {:induction false} WithoutDistinct(queue: seq<Id>, which: Id)
    requires Distinct(queue)
    ensures Distinct(Without(queue, which))
  {
    if queue != [] && queue[0] != which {
      WithoutDistinct(queue[1..], which);
      WithoutKeeps(queue[1..], which);
      DistinctCons(queue[0], Without(queue[1..], which));
    }
  }

  lemma {:induction false} DistinctCons(id: Id, queue: seq<Id>)
    requires Distinct(queue) && id !in queue
    ensures Distinct([id] + queue)
  {
  }

  // What the assumptions are for -----------------------------------------------------

  /** The octets a range covers in the file. */
  function Covered(content: Bytes, range: Range): Bytes
  {
    var from := Min(range.0, |content|);
    content[from..Min(range.0 + range.1, |content|)]
  }

  function Concat(pieces: seq<Bytes>): Bytes
  {
    if pieces == [] then [] else pieces[0] + Concat(pieces[1..])
  }

  lemma {:induction false} PiecesLength(content: Bytes, ranges: seq<Range>, pieces: seq<Bytes>, base: nat, end: nat)
    requires |pieces| == |ranges| && Consecutive(ranges, base, end) && base <= |content|
    requires forall k :: 0 <= k < |ranges| ==> pieces[k] <= Covered(content, ranges[k])
    ensures |Concat(pieces)| <= |content| - base
    decreases |ranges|
  {
    if ranges != [] {
      var next := base + ranges[0].1;
      assert pieces[0] <= Covered(content, ranges[0]);
      if next <= |content| {
        PiecesLength(content, ranges[1..], pieces[1..], next, end);
      } else {
        BeyondTheEnd(content, ranges[1..], pieces[1..], next, end);
      }
    }
  }

  lemma {:induction false} BeyondTheEnd(content: Bytes, ranges: seq<Range>, pieces: seq<Bytes>, base: nat, end: nat)
    requires |pieces| == |ranges| && Consecutive(ranges, base, end) && base >= |content|
    requires forall k :: 0 <= k < |ranges| ==> pieces[k] <= Covered(content, ranges[k])
    ensures Concat(pieces) == [] && forall k :: 0 <= k < |ranges| ==> pieces[k] == Covered(content, ranges[k])
    decreases |ranges|
  {
    if ranges != [] {
      assert pieces[0] <= Covered(content, ranges[0]) == [];
      BeyondTheEnd(content, ranges[1..], pieces[1..], base + ranges[0].1, end);
      forall k | 0 <= k < |ranges|
        ensures pieces[k] == Covered(content, ranges[k])
      {
        if k > 0 {
          assert pieces[1..][k - 1] == Covered(content, ranges[1..][k - 1]);
        }
      }
    }
  }

  /** The reader takes each answer for its whole range.  If every answer could
      be any beginning of its range, what it hands out would be the file
      exactly when no answer is short. */
  lemma {:induction false} ReadAheadNeedsFullReads(content: Bytes, ranges: seq<Range>, pieces: seq<Bytes>, base: nat,
                                                   end: nat)
    requires |pieces| == |ranges| && Consecutive(ranges, base, end) && base <= |content| <= end
    requires forall k :: 0 <= k < |ranges| ==> pieces[k] <= Covered(content, ranges[k])
    ensures Concat(pieces) == content[base..] <==>
            forall k :: 0 <= k < |ranges| ==> pieces[k] == Covered(content, ranges[k])
    decreases |ranges|, 0
  {
    if ranges == [] {
      assert content[base..] == [];
    } else {
      var next := Min(base + ranges[0].1, |content|);
      assert content[base..] == content[base..next] + content[next..];
      assert pieces[0] <= content[base..next];
      RestOfPieces(content, ranges[1..], pieces[1..], base + ranges[0].1, end);
      assert Concat(pieces) == pieces[0] + Concat(pieces[1..]);
      if pieces[0] == content[base..next] {
        assert Concat(pieces)[|pieces[0]|..] == Concat(pieces[1..]);
        assert content[base..][|pieces[0]|..] == content[next..];
        ShiftAll(content, ranges, pieces);
      } else {
        assert |Concat(pieces)| < |content| - base;
      }
    }
  }

  lemma {:induction false} RestOfPieces(content: Bytes, ranges: seq<Range>, pieces: seq<Bytes>, base: nat, end: nat)
    requires |pieces| == |ranges| && Consecutive(ranges, base, end) && |content| <= end
    requires forall k :: 0 <= k < |ranges| ==> pieces[k] <= Covered(content, ranges[k])
    ensures var next := Min(base, |content|);
            && |Concat(pieces)| <= |content| - next
            && (Concat(pieces) == content[next..] <==>
                  forall k :: 0 <= k < |ranges| ==> pieces[k] == Covered(content, ranges[k]))
    decreases |ranges|, 1
  {
    if base <= |content| {
      PiecesLength(content, ranges, pieces, base, end);
      ReadAheadNeedsFullReads(content, ranges, pieces, base, end);
    } else {
      BeyondTheEnd(content, ranges, pieces, base, end);
    }
  }

  lemma {:induction false} ShiftAll(content: Bytes, ranges: seq<Range>, pieces: seq<Bytes>)
    requires |pieces| == |ranges| > 0 && pieces[0] == Covered(content, ranges[0])
    ensures (forall k :: 0 <= k < |ranges| ==> pieces[k] == Covered(content, ranges[k])) <==>
            (forall k :: 0 <= k < |ranges| - 1 ==> pieces[1..][k] == Covered(content, ranges[1..][k]))
  {
    if forall k :: 0 <= k < |ranges| - 1 ==> pieces[1..][k] == Covered(content, ranges[1..][k]) {
      forall k | 0 <= k < |ranges|
        ensures pieces[k] == Covered(content, ranges[k])
      {
        if k > 0 {
          assert pieces[1..][k - 1] == Covered(content, ranges[1..][k - 1]);
        }
      }
    }
  }

  /** How the reader tells the answers to a read apart. */
  lemma {:induction false} ReadReply(content: Bytes, range: Range, id: Id, r: Reply)
    requires ReadAnswer(content, range.0, range.1, r) && r.Fits() && id < UINT32 && range.1 > 0
    ensures var reply := EncodeReply(id, r);
            && |reply| >= 5
            && (reply[0] as int == SSH_FXP_DATA <==> r.Data?)
            && (reply[0] as int != SSH_FXP_DATA ==> r.Status? && Uint32At(reply, 5) == Some(r.code))
            && (reply[0] as int == SSH_FXP_DATA ==>
                  && range.0 < |content| && StringAt(reply, 5).Some?
                  && StringAt(reply, 5).value.0 == content[range.0..Min(range.0 + range.1, |content|)])
            && (reply[0] as int != SSH_FXP_DATA ==>
                  && Uint32At(reply, 5).Some? && Uint32At(reply, 5).value != SSH_FX_OK
                  && (Uint32At(reply, 5).value == SSH_FX_EOF ==> range.0 >= |content|))
  {
    hide StringAt, Uint32At, EncodeReply;
    ReplyFields(id, r);
  }

  lemma {:induction false} ServedRead(q: Request, files: Snapshot, handles: map<Bytes, Path>,
                                      r: Reply, files': Snapshot, handles': map<Bytes, Path>)
    requires q.Read? && Served(q, files, handles, r, files', handles')
    requires q.handle in handles && handles[q.handle] in files
    ensures files' == files && handles' == handles && ReadAnswer(files[handles[q.handle]], q.offset, q.len, r)
  {
  }
}
