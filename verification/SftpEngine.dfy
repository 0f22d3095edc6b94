/** The multiplexer of sftp.cc: requests carry ids, the server may deliver the
    replies in any order, and the client sorts them out. */
module SftpEngine {
  import opened Bytes
  import opened BufferedFile
  import opened SftpWire

  type Id = nat

  /** The largest number of ids that can be issued before one comes again. */
  const ID_PERIOD: nat := 0xFFFF_FFFF

  // The server ----------------------------------------------------------------------

  ghost predicate Failure(r: Reply)
  {
    r.Status? && r.code !in {SSH_FX_OK, SSH_FX_EOF}
  }

  /** Section 6.4 of the draft: a read of an ordinary file gives the octets
      asked for, up to the end of the file. */
  ghost predicate ReadAnswer(content: Bytes, offset: nat, len: nat, r: Reply)
  {
    || Failure(r)
    || (offset >= |content| && r.Status? && r.code == SSH_FX_EOF)
    || (offset < |content| && r == Data(content[offset..if offset + len < |content| then offset + len else |content|]))
  }

  /** `data` written over `content` from `offset` on. */
  function WriteAt(content: Bytes, offset: nat, data: Bytes): Bytes
  {
    var padded := if offset <= |content| then content else content + seq(offset - |content|, _ => '\0');
    padded[..offset] + data + if offset + |data| <= |padded| then padded[offset + |data|..] else []
  }

  /** What a server may answer to a request, and what it then has done. */
  ghost predicate Served(q: Request, files: Snapshot, handles: map<Bytes, Path>,
                         r: Reply, files': Snapshot, handles': map<Bytes, Path>)
  {
    match q
    case Stat(path) =>
      files' == files && handles' == handles && (if path in files then r.Attrs? else Failure(r))
    case Read(handle, offset, len) =>
      && files' == files && handles' == handles
      && if handle in handles && handles[handle] in files
         then ReadAnswer(files[handles[handle]], offset, len, r)
         else Failure(r)
    case Write(handle, offset, data) =>
      && handles' == handles && r.Status?
      && if r.code == SSH_FX_OK then
           && handle in handles && handles[handle] in files
           && files' == files[handles[handle] := WriteAt(files[handles[handle]], offset, data)]
         else files' == files
    case Close(handle) => files' == files && handles' == handles && r.Status?
    case Open(name, pflags) =>
      && if r.Handle? then
           && r.handle !in handles && handles' == handles[r.handle := name]
           && files' == (if pflags == SSH_FXF_OVERWRITE then files[name := []] else files)
           && name in files'
         else files' == files && handles' == handles && Failure(r)
    case Rename(oldpath, newpath) =>
      && handles' == handles && r.Status?
      && if r.code == SSH_FX_OK then
           oldpath in files && files' == (files - {oldpath})[newpath := files[oldpath]]
         else files' == files
    case PosixRename(oldpath, newpath) =>
      && handles' == handles && r.Status?
      && if r.code == SSH_FX_OK then
           oldpath in files && files' == (files - {oldpath})[newpath := files[oldpath]]
         else files' == files
    case Remove(path) =>
      && handles' == handles && r.Status?
      && if r.code == SSH_FX_OK then path in files && files' == files - {path} else files' == files
    // directories and links are no part of the state
    case Rmdir(_) => files' == files && handles' == handles && r.Status?
    case Mkdir(_, _) => files' == files && handles' == handles && r.Status?
    case Opendir(_) => files' == files && handles' == handles && (r.Handle? || Failure(r))
    case Readdir(_) => files' == files && handles' == handles && (r.Names? || r.Status?)
    case Readlink(_) => files' == files && handles' == handles && (r.Names? || Failure(r))
  }

  datatype Record = Record(asked: map<Id, Request>, answers: map<Id, Reply>)

  /** All that was asked and answered is still what it was. */
  ghost predicate Remembered(before: Record, after: Record)
  {
    && (forall j :: j in before.asked ==> j in after.asked && after.asked[j] == before.asked[j])
    && (forall j :: j in before.answers ==> j in after.answers && after.answers[j] == before.answers[j])
  }

  /** The server turned the request `id` down, with that status. */
  ghost predicate TurnedDown(r: Record, id: Id, code: nat)
  {
    && id in r.asked && id in r.answers && r.answers[id].Status? && r.answers[id].code == code
    && code != SSH_FX_OK && !(code == SSH_FX_EOF && r.asked[id].Read?)
  }

  lemma {:induction false} RememberedSame(a: Record)
    ensures Remembered(a, a)
  {
  }

  lemma {:induction false} RememberedKeys(a: Record, b: Record)
    requires Remembered(a, b)
    ensures a.asked.Keys <= b.asked.Keys
  {
  }

  lemma {:induction false} RememberedOn(a: Record, b: Record, c: Record)
    requires Remembered(a, b) && Remembered(b, c)
    ensures Remembered(a, c)
  {
  }

  /** Section 6.1 of the draft: requests take effect as if in the order they
      were sent, replies may be delivered in any order. */
  class Server {
    var files: Snapshot
    var handles: map<Bytes, Path>
    /** Replies made and not yet delivered. */
    var undelivered: map<Id, Bytes>
    /** Every reply made so far, and what it replies to. */
    ghost var answers: map<Id, Reply>
    ghost var asked: map<Id, Request>

    ghost function Past(): Record
      reads `asked, `answers
    {
      Record(asked, answers)
    }

    constructor (files: Snapshot)
      ensures this.files == files && undelivered == map[] && answers == map[] && asked == map[] && handles == map[]
    {
      this.files := files;
      handles := map[];
      undelivered := map[];
      answers := map[];
      asked := map[];
    }

    method Receive(id: Id, q: Request)
      requires 0 < id < UINT32 && id !in answers && q.Fits()
      modifies this
      ensures id in answers && answers == old(answers)[id := answers[id]] && answers[id].Fits()
      ensures asked == old(asked)[id := q]
      ensures undelivered == old(undelivered)[id := EncodeReply(id, answers[id])]
      ensures Served(q, old(files), old(handles), answers[id], files, handles)
    {
      var r := Answer(q);
      answers := answers[id := r];
      asked := asked[id := q];
      undelivered := undelivered[id := EncodeReply(id, r)];
    }

    method Answer(q: Request) returns (r: Reply)
      requires q.Fits()
      modifies `files, `handles
      ensures r.Fits() && Served(q, old(files), old(handles), r, files, handles)
    {
      var refuse: bool := *;
      var code: nat :| SSH_FX_EOF < code < UINT32;
      r := Status(code, "", "");
      match q {
        case Stat(path) =>
          r := if path in files then Attrs([]) else Status(SSH_FX_NO_SUCH_FILE, "", "");
        case Read(handle, offset, len) =>
          if !refuse && handle in handles && handles[handle] in files {
            var content := files[handles[handle]];
            r := if offset >= |content| then Status(SSH_FX_EOF, "", "")
                 else Data(content[offset..if offset + len < |content| then offset + len else |content|]);
          }
        case Write(handle, offset, data) =>
          if !refuse && handle in handles && handles[handle] in files {
            files := files[handles[handle] := WriteAt(files[handles[handle]], offset, data)];
            r := Status(SSH_FX_OK, "", "");
          }
        case Close(handle) =>
          r := Status(SSH_FX_OK, "", "");
        case Open(name, pflags) =>
          var handle: Bytes := *;
          if !refuse && handle !in handles && |handle| < UINT32 && (pflags == SSH_FXF_OVERWRITE || name in files) {
            handles := handles[handle := name];
            if pflags == SSH_FXF_OVERWRITE {
              files := files[name := []];
            }
            r := Handle(handle);
          }
        case Rename(oldpath, newpath) =>
          if !refuse && oldpath in files {
            files := (files - {oldpath})[newpath := files[oldpath]];
            r := Status(SSH_FX_OK, "", "");
          }
        case PosixRename(oldpath, newpath) =>
          if !refuse && oldpath in files {
            files := (files - {oldpath})[newpath := files[oldpath]];
            r := Status(SSH_FX_OK, "", "");
          }
        case Remove(path) =>
          if !refuse && path in files {
            files := files - {path};
            r := Status(SSH_FX_OK, "", "");
          }
        case Rmdir(_) =>
          r := if refuse then r else Status(SSH_FX_OK, "", "");
        case Mkdir(_, _) =>
          r := if refuse then r else Status(SSH_FX_OK, "", "");
        case Opendir(_) =>
          var handle: Bytes := *;
          r := if refuse || |handle| >= UINT32 then r else Handle(handle);
        case Readdir(_) =>
          var names: Bytes := *;
          r := if refuse then Status(SSH_FX_EOF, "", "") else Names(names);
        case Readlink(_) =>
          var names: Bytes := *;
          r := if refuse then r else Names(names);
      }
    }

    /** The next reply to arrive, whichever it is. */
    method Deliver() returns (ghost id: Id, reply: Bytes)
      requires undelivered != map[]
      modifies `undelivered
      ensures id in old(undelivered) && reply == old(undelivered)[id]
      ensures id !in undelivered && undelivered.Keys < old(undelivered.Keys)
      ensures undelivered == old(undelivered) - {id}
    {
      var k :| k in undelivered;
      id := k;
      reply := undelivered[k];
      undelivered := undelivered - {k};
    }
  }

  // Ids --------------------------------------------------------------------------

  function IdSet(n: nat): (s: set<Id>)
    ensures forall i :: i in s <==> 0 < i <= n
  {
    if n == 0 then {} else IdSet(n - 1) + {n}
  }

  /** The field `id` after so many calls of `newid`. */
  function NextId(issued: nat): Id
  {
    if issued == 0 then 0 else (IdAt(issued - 1) + 1) % UINT32
  }

  /** One call of `newid`: what it returns and the next value of the field. */
  function NewId(id: Id): (Id, Id)
    requires id < UINT32
  {
    var i := if id == 0 then 1 else id;
    (i, (i + 1) % UINT32)
  }

  /** The id that call number `k` returns, the calls being counted from zero. */
  function IdAt(k: nat): Id { k % ID_PERIOD + 1 }

  lemma {:induction false} NewIdStep(k: nat)
    ensures NextId(k) < UINT32
    ensures NewId(NextId(k)) == (IdAt(k), NextId(k + 1))
  {
    if k > 0 {
      var m := (k - 1) % ID_PERIOD;
      if m == ID_PERIOD - 1 {
        assert k % ID_PERIOD == 0;
      } else {
        assert k % ID_PERIOD == m + 1;
      }
    }
  }

  /** The field `id` after `k` calls of `newid` on a new connection. */
  function FieldAfter(k: nat): (id: Id)
    ensures id < UINT32
  {
    if k == 0 then 0 else NewId(FieldAfter(k - 1)).1
  }

  lemma {:induction false} FieldIsNextId(k: nat)
    ensures FieldAfter(k) == NextId(k)
  {
    if k > 0 {
      FieldIsNextId(k - 1);
      NewIdStep(k - 1);
    }
  }

  /** Ids are never zero, and two calls get the same id exactly when they are
      a multiple of 2^32-1 calls apart. */
  lemma {:induction false} IdsRepeatWithPeriod(j: nat, k: nat)
    ensures NewId(FieldAfter(j)).0 != 0
    ensures NewId(FieldAfter(j)).0 == NewId(FieldAfter(k)).0 <==> (j - k) % ID_PERIOD == 0
  {
    FieldIsNextId(j);
    FieldIsNextId(k);
    NewIdStep(j);
    NewIdStep(k);
    SameRemainder(j, k);
  }

  lemma {:induction false} SameRemainder(j: nat, k: nat)
    ensures j % ID_PERIOD == k % ID_PERIOD <==> (j - k) % ID_PERIOD == 0
  {
    var a, b := j / ID_PERIOD, k / ID_PERIOD;
    var r, s := j % ID_PERIOD, k % ID_PERIOD;
    assert j - k == (a - b) * ID_PERIOD + (r - s);
    if r == s {
    } else if r > s {
      assert (j - k) % ID_PERIOD == r - s;
    } else {
      assert (j - k) % ID_PERIOD == r - s + ID_PERIOD;
    }
  }

  /** Replies come in one after another, under whatever ids. */
  function ArrivedAll(replies: map<Id, Bytes>, ignored: set<Id>, order: seq<(Id, Bytes)>): (map<Id, Bytes>, set<Id>)
    decreases |order|
  {
    if order == [] then (replies, ignored)
    else
      var (stash, left) := Arrived(replies, ignored, order[0].0, order[0].1);
      ArrivedAll(stash, left, order[1..])
  }

  lemma {:induction false} OthersArrive(replies: map<Id, Bytes>, ignored: set<Id>, order: seq<(Id, Bytes)>, i: Id)
    requires forall k :: 0 <= k < |order| ==> order[k].0 != i
    ensures var (stash, left) := ArrivedAll(replies, ignored, order);
            (i in stash <==> i in replies) && (i in replies ==> stash[i] == replies[i]) && (i in left <==> i in ignored)
    decreases |order|
  {
    if order != [] {
      var (stash, left) := Arrived(replies, ignored, order[0].0, order[0].1);
      OthersArrive(stash, left, order[1..], i);
    }
  }

  /** The one reply to a request is there to be awaited if and only if the id of
      the request was not in `ignored`.  An id that stays there after its own
      reply has come, and is issued again, loses the reply to the new request:
      waiting for it never ends. */
  lemma {:induction false} IgnoredIdLosesReply(replies: map<Id, Bytes>, ignored: set<Id>, order: seq<(Id, Bytes)>,
                                               n: nat)
    requires n < |order| && order[n].0 !in replies
    requires forall k :: 0 <= k < |order| && k != n ==> order[k].0 != order[n].0
    ensures var stash := ArrivedAll(replies, ignored, order).0;
            && (order[n].0 in stash <==> order[n].0 !in ignored)
            && (order[n].0 in stash ==> stash[order[n].0] == order[n].1)
            && order[n].0 !in ArrivedAll(replies, ignored, order).1
    decreases |order|
  {
    var (i, reply) := order[n];
    var (stash, left) := Arrived(replies, ignored, order[0].0, order[0].1);
    assert forall k :: 0 <= k < |order| - 1 ==> order[1..][k] == order[k + 1];
    if n == 0 {
      OthersArrive(stash, left, order[1..], i);
    } else {
      IgnoredIdLosesReply(stash, left, order[1..], n - 1);
    }
  }

  function Packets(order: seq<(Id, Bytes)>): (packets: seq<Bytes>)
    ensures |packets| == |order| && forall k :: 0 <= k < |order| ==> packets[k] == order[k].1
  {
    seq(|order|, k requires 0 <= k < |order| => order[k].1)
  }

  /** Every packet shows the id it came under. */
  predicate Labelled(order: seq<(Id, Bytes)>)
  {
    forall k :: 0 <= k < |order| ==>
                  5 <= |order[k].1| < UINT32 && Uint32At(order[k].1, 1) == Some(order[k].0)
  }

  /** `poll` again and again, off the stream itself: however the replies were
      ordered and the stream is chopped up, the stash and the ignored ids become
      what the arrivals one after another make of them. */
  method PollStream(f: File, replies0: map<Id, Bytes>, ignored0: set<Id>, ghost order: seq<(Id, Bytes)>)
    returns (replies: map<Id, Bytes>, ignored: set<Id>)
    requires f.Valid() && f.mode != Writing && f.Truthful()
    requires Labelled(order) && f.Rest() == Frames(Packets(order))
    modifies f, f.buffer
    ensures f.Valid() && (replies, ignored) == ArrivedAll(replies0, ignored0, order)
  {
    hide File.Rest, FirstPacket, Frames, Uint32At;
    replies, ignored := replies0, ignored0;
    ghost var packets := Packets(order);
    ghost var n := 0;
    assert packets[0..] == packets && order[0..] == order;
    while true
      invariant f.Valid() && f.mode != Writing && f.Truthful()
      invariant n <= |packets| && f.Rest() == Frames(packets[n..])
      invariant ArrivedAll(replies, ignored, order[n..]) == ArrivedAll(replies0, ignored0, order)
      decreases |packets| - n
    {
      NextFrame(packets, n);
      var r := Recv(f);
      if r.None? {
        break;
      }
      var reply := r.value;
      var id := Uint32At(reply, 1).value;
      assert order[n..][0] == (id, reply) && order[n..][1..] == order[n + 1..];
      if id !in ignored {
        replies := replies[id := reply];
      } else {
        ignored := ignored - {id};
      }
      n := n + 1;
    }
  }

  /** Replies as the server sends them, in whatever order, are labelled. */
  lemma {:induction false} AnswersAreLabelled(order: seq<(Id, Bytes)>, answers: map<Id, Reply>)
    requires forall k :: 0 <= k < |order| ==>
               && order[k].0 in answers && order[k].0 < UINT32 && answers[order[k].0].Fits()
               && order[k].1 == EncodeReply(order[k].0, answers[order[k].0]) && |order[k].1| < UINT32
    ensures Labelled(order)
  {
    hide EncodeReply, Uint32At, StringAt;
    forall k | 0 <= k < |order|
      ensures 5 <= |order[k].1| && Uint32At(order[k].1, 1) == Some(order[k].0)
    {
      ReplyFields(order[k].0, answers[order[k].0]);
    }
  }

  // The client ---------------------------------------------------------------------

  function UnflushedIds(unflushed: seq<(Id, Request)>): set<Id>
  {
    set k | k in unflushed :: k.0
  }

  /** The existence cache once the answers in flight have been put into it. */
  ghost function CacheAfter(cache: map<Path, bool>, inflight: seq<(Id, Path)>, answers: map<Id, Reply>): map<Path, bool>
    decreases |inflight|
  {
    if inflight == [] then cache
    else
      var (id, path) := inflight[0];
      CacheAfter(cache[path := id in answers && answers[id].Attrs?], inflight[1..], answers)
  }

  /** Where the reply to a request is: not asked for yet, on its way, stashed,
      handed out by `await`, or thrown away. */
  datatype Place = Buffered | OnWire | Stashed | Consumed | Dropped

  ghost function Lookup<T>(m: map<Id, T>, i: Id): Option<T> { if i in m then Some(m[i]) else None }

  /** The reply to request `i` is in place `p`, according to what the output
      buffer, the wire, the stash and the server hold of it. */
  ghost predicate PlaceOk(p: Place, i: Id, buffered: bool, onWire: Option<Bytes>, stashed: Option<Bytes>,
                          answer: Option<Reply>, isIgnored: bool)
  {
    && 0 < i < UINT32
    && (buffered <==> p == Buffered) && (onWire.Some? <==> p == OnWire) && (stashed.Some? <==> p == Stashed)
    && (answer.Some? <==> p != Buffered)
    && (answer.Some? ==> answer.value.Fits())
    && (p == OnWire ==> onWire.value == EncodeReply(i, answer.value))
    && (p == Stashed ==> stashed.value == EncodeReply(i, answer.value))
    && (isIgnored ==> p != Stashed && p != Consumed)
  }

  /** What becomes of the stash and of the ignored ids when a reply arrives: it
      is stashed, or dropped if its id is ignored. */
  function Arrived(replies: map<Id, Bytes>, ignored: set<Id>, i: Id, reply: Bytes): (map<Id, Bytes>, set<Id>)
  {
    if i in ignored then (replies, ignored - {i}) else (replies[i := reply], ignored)
  }

  /** The requests on the wire or stashed that somebody may ask for. */
  ghost function WaitingOf(place: map<Id, Place>, ignored: set<Id>): set<Id>
  {
    set i | i in place && (place[i] == OnWire || place[i] == Stashed) && i !in ignored
  }

  lemma {:induction false} WaitingIssued(place: map<Id, Place>, ignored: set<Id>)
    ensures WaitingOf(place, ignored) <= place.Keys
  {
  }

  /** All that is known of the requests issued so far: where each is, and what
      the output buffer, the stash, the ignored ids, the wire and the server
      hold. */
  datatype Ledger = Ledger(issued: nat, place: map<Id, Place>, unflushed: seq<(Id, Request)>, replies: map<Id, Bytes>,
                           ignored: set<Id>, undelivered: map<Id, Bytes>, answers: map<Id, Reply>)
  {
    /** The reply to request `i` is in its place and nowhere else, and is the
        server's answer to that very request. */
    ghost predicate InPlace(i: Id)
      requires i in place
    {
      PlaceOk(place[i], i, i in UnflushedIds(unflushed), Lookup(undelivered, i), Lookup(replies, i), Lookup(answers, i),
              i in ignored)
    }

    /** Each request issued so far is accounted for in exactly one place. */
    ghost predicate Balanced()
    {
      && issued <= ID_PERIOD
      && place.Keys == IdSet(issued)
      && (forall i :: i in place ==> InPlace(i))
      && UnflushedIds(unflushed) <= place.Keys && undelivered.Keys <= place.Keys
      && replies.Keys <= place.Keys && answers.Keys <= place.Keys && ignored <= place.Keys
      && (forall i, j :: 0 <= i < j < |unflushed| ==> unflushed[i].0 != unflushed[j].0)
      && (forall i :: 0 <= i < |unflushed| ==> unflushed[i].1.Fits())
    }

    /** A reply comes in. */
    ghost function Arrival(i: Id): Ledger
      requires i in undelivered
    {
      var (stash, dropped) := Arrived(replies, ignored, i, undelivered[i]);
      this.(place := place[i := if i in ignored then Dropped else Stashed],
            replies := stash, ignored := dropped, undelivered := undelivered - {i})
    }

    /** The oldest request in the output buffer is sent and answered. */
    ghost function Sending(answer: Reply): Ledger
      requires unflushed != [] && answer.Fits() && unflushed[0].0 < UINT32
    {
      var i := unflushed[0].0;
      this.(place := place[i := OnWire], unflushed := unflushed[1..], answers := answers[i := answer],
            undelivered := undelivered[i := EncodeReply(i, answer)])
    }

    /** A stashed reply is handed out. */
    ghost function Handing(i: Id): Ledger
    {
      this.(place := place[i := Consumed], replies := replies - {i})
    }

    /** Nobody will ask for the reply to `i`. */
    ghost function Ignoring(i: Id): Ledger
    {
      if i in replies then
        this.(place := place[i := Dropped], replies := replies - {i}, ignored := ignored + {i})
      else this.(ignored := ignored + {i})
    }

    /** One more request in the output buffer. */
    ghost function Issuing(q: Request): Ledger
    {
      this.(issued := issued + 1, place := place[issued + 1 := Buffered], unflushed := unflushed + [(issued + 1, q)])
    }
  }

  lemma {:induction false} ArrivalBalanced(b: Ledger, i: Id)
    requires b.Balanced() && i in b.undelivered
    ensures i in b.place && b.place[i] == OnWire && i in b.answers && 0 < i < UINT32 && b.answers[i].Fits()
    ensures b.undelivered[i] == EncodeReply(i, b.answers[i])
    ensures b.Arrival(i).Balanced() && b.Arrival(i).place.Keys == b.place.Keys
    ensures WaitingOf(b.Arrival(i).place, b.Arrival(i).ignored) == WaitingOf(b.place, b.ignored)
  {
    hide EncodeReply, IdSet, Reply.Fits, Request.Fits, UnflushedIds;
    assert b.InPlace(i);
    var c := b.Arrival(i);
    forall j | j in c.place
      ensures c.InPlace(j)
    {
      assert b.InPlace(j);
    }
  }

  lemma {:induction false} BalancedFacts(b: Ledger)
    requires b.Balanced()
    ensures b.ignored <= b.place.Keys && b.undelivered.Keys <= b.place.Keys && b.replies.Keys <= b.place.Keys
  {
  }

  lemma {:induction false} ConsumedStaysAway(b: Ledger)
    requires b.Balanced()
    ensures forall i :: i in b.place && b.place[i] == Consumed ==> i !in b.replies
  {
    hide UnflushedIds, EncodeReply;
    forall i | i in b.place && b.place[i] == Consumed
      ensures i !in b.replies
    {
      assert b.InPlace(i);
    }
  }

  lemma {:induction false} NextToSend(b: Ledger)
    requires b.Balanced() && b.unflushed != []
    ensures var i := b.unflushed[0].0;
            0 < i < UINT32 && i in b.place && b.place[i] == Buffered && i !in b.answers && b.unflushed[0].1.Fits()
  {
    hide EncodeReply, IdSet, Reply.Fits, Request.Fits, UnflushedIds;
    UnflushedFront(b.unflushed);
    assert b.InPlace(b.unflushed[0].0);
  }

  lemma {:induction false} SendingBalanced(b: Ledger, answer: Reply)
    requires b.Balanced() && b.unflushed != [] && answer.Fits() && b.unflushed[0].0 < UINT32
    ensures b.Sending(answer).Balanced() && b.Sending(answer).place.Keys == b.place.Keys
  {
    hide EncodeReply, IdSet, Reply.Fits, Request.Fits, UnflushedIds;
    var i := b.unflushed[0].0;
    UnflushedFront(b.unflushed);
    assert b.InPlace(i);
    var c := b.Sending(answer);
    assert c.place.Keys == b.place.Keys;
    forall j | j in c.place
      ensures c.InPlace(j)
    {
      assert b.InPlace(j);
    }
  }

  lemma {:induction false} HandingBalanced(b: Ledger, i: Id)
    requires b.Balanced() && i in b.replies
    ensures 0 < i < UINT32 && i in b.place && b.place[i] == Stashed && i in b.answers && b.answers[i].Fits()
    ensures b.replies[i] == EncodeReply(i, b.answers[i]) && b.Handing(i).Balanced()
  {
    hide EncodeReply, IdSet, Reply.Fits, Request.Fits, UnflushedIds;
    assert b.InPlace(i);
    var c := b.Handing(i);
    assert c.place.Keys == b.place.Keys;
    forall j | j in c.place
      ensures c.InPlace(j)
    {
      assert b.InPlace(j);
    }
  }

  lemma {:induction false} IgnoringBalanced(b: Ledger, i: Id)
    requires b.Balanced() && i in b.place && b.place[i] != Consumed
    ensures i in b.replies <==> b.place[i] == Stashed
    ensures b.Ignoring(i).Balanced()
    ensures WaitingOf(b.Ignoring(i).place, b.Ignoring(i).ignored) == WaitingOf(b.place, b.ignored) - {i}
  {
    hide EncodeReply, IdSet, Reply.Fits, Request.Fits, UnflushedIds;
    assert b.InPlace(i);
    var c := b.Ignoring(i);
    assert c.place.Keys == b.place.Keys;
    forall j | j in c.place
      ensures c.InPlace(j)
    {
      assert b.InPlace(j);
    }
  }

  lemma {:induction false} IssuingBalanced(b: Ledger, q: Request)
    requires b.Balanced() && b.issued < ID_PERIOD && q.Fits()
    ensures b.Issuing(q).Balanced() && b.issued + 1 !in b.place && b.issued + 1 !in b.ignored
  {
    hide EncodeReply, Reply.Fits, Request.Fits, IdSet, UnflushedIds;
    FreshId(b.issued);
    UnflushedBack(b.unflushed, (b.issued + 1, q));
    var c := b.Issuing(q);
    forall j | j in c.place
      ensures c.InPlace(j)
    {
      if j != b.issued + 1 {
        assert b.InPlace(j);
      }
    }
  }

  class Sftp {
    const server: Server
    var id: Id
    /** Replies that arrived before they were asked for. */
    var replies: map<Id, Bytes>
    /** Ids whose reply nobody will ask for. */
    var ignored: set<Id>
    /** Requests still in the output buffer. */
    var unflushed: seq<(Id, Request)>
    var existenceInflight: seq<(Id, Path)>
    var existence: map<Path, bool>

    ghost var issued: nat
    ghost var place: map<Id, Place>

    ghost function Books(): Ledger
      reads `issued, `place, `unflushed, `replies, `ignored, server`undelivered, server`answers
    {
      Ledger(issued, place, unflushed, replies, ignored, server.undelivered, server.answers)
    }

    /** Each request issued so far is accounted for in exactly one place. */
    ghost predicate Accounted()
      reads `issued, `id, `place, `unflushed, `replies, `ignored, server`undelivered, server`answers,
            server`asked
    {
      id == NextId(issued) && Books().Balanced() && server.asked.Keys == server.answers.Keys
    }

    /** The existence tests in flight are requests of their own, flushed and
        awaited by nobody else. */
    ghost predicate Prefetching()
      reads this, server
    {
      && (forall i :: 0 <= i < |existenceInflight| ==> existenceInflight[i].0 in Waiting())
      && (forall i, j :: 0 <= i < j < |existenceInflight| ==> existenceInflight[i].0 != existenceInflight[j].0)
    }

    /** Only the closing of handles is ever left in the output buffer, and
        nobody waits for it. */
    ghost predicate Quiet()
      reads `unflushed, `ignored
    {
      forall k :: k in unflushed ==> k.1.Close? && k.0 in ignored
    }

    ghost predicate Valid()
      reads this, server
    {
      Accounted() && Prefetching() && Quiet()
    }

    /** The flushed requests whose reply can still be awaited. */
    ghost function Waiting(): set<Id>
      reads `place, `ignored
    {
      WaitingOf(place, ignored)
    }

    constructor (server: Server)
      requires server.undelivered == map[] && server.answers == map[] && server.asked == map[]
      ensures Valid() && this.server == server && issued == 0 && unflushed == [] && Waiting() == {}
      ensures existenceInflight == [] && existence == map[]
    {
      this.server := server;
      id := 0;
      replies := map[];
      ignored := {};
      unflushed := [];
      existenceInflight := [];
      existence := map[];
      issued := 0;
      place := map[];
    }

    /** Takes in the next reply that arrives, whichever request it answers. */
    method Poll() returns (ghost key: Id)
      requires Accounted() && server.undelivered != map[]
      modifies `replies, `ignored, `place, server`undelivered
      ensures Accounted() && key in old(server.undelivered) && Books() == old(Books().Arrival(key))
      ensures server.undelivered.Keys < old(server.undelivered.Keys) && place.Keys == old(place).Keys
      ensures Waiting() == old(Waiting())
      ensures forall i :: i in place ==> place[i] == old(place)[i] || old(place)[i] == OnWire
      ensures ignored <= old(ignored) && forall i :: i in old(ignored) && old(place)[i] != OnWire ==> i in ignored
      // a reply that is ignored is dropped, and its id no longer ignored
      ensures if key in old(ignored) then replies == old(replies) && ignored == old(ignored) - {key}
              else ignored == old(ignored) && replies == old(replies)[key := old(server.undelivered)[key]]
      // what was handed out never comes back
      ensures forall i :: i in place && old(place)[i] == Consumed ==> place[i] == Consumed && i !in replies
    {
      hide EncodeReply, NextId, Reply.Fits, Uint32At, StringAt, Reply.Type, WaitingOf, Ledger.Balanced;
      ghost var before := Books();
      var reply;
      key, reply := server.Deliver();
      ArrivalBalanced(before, key);
      ReplyFields(key, before.answers[key]);
      var id := Uint32At(reply, 1).value;
      if id !in ignored {
        replies := replies[id := reply];
        place := place[id := Stashed];
      } else {
        ignored := ignored - {id};
        place := place[id := Dropped];
      }
      assert Books() == before.Arrival(key);
      ConsumedStaysAway(before.Arrival(key));
      BalancedFacts(before);
    }

    /** Sends on the oldest request in the output buffer. */
    method FlushOne()
      requires Accounted() && unflushed != []
      modifies `unflushed, `place, server
      ensures Accounted() && unflushed == old(unflushed)[1..]
      ensures var i := old(unflushed)[0].0;
              && i in old(place) && place.Keys == old(place).Keys
              && Waiting() == if i in ignored then old(Waiting()) else old(Waiting()) + {i}
      ensures var k := old(unflushed)[0];
              && place == old(place)[k.0 := OnWire] && k.0 !in old(server.answers) && k.0 in server.answers
              && server.answers == old(server.answers)[k.0 := server.answers[k.0]]
              && server.asked == old(server.asked)[k.0 := k.1] && Remembered(old(server.Past()), server.Past())
              && Served(k.1, old(server.files), old(server.handles), server.answers[k.0], server.files, server.handles)
    {
      hide EncodeReply, NextId, Reply.Fits, Request.Fits, Served, Ledger.Balanced;
      ghost var before := Books();
      var k := unflushed[0];
      NextToSend(before);
      server.Receive(k.0, k.1);
      SendingBalanced(before, server.answers[k.0]);
      unflushed := unflushed[1..];
      place := place[k.0 := OnWire];
      assert Books() == before.Sending(server.answers[k.0]);
    }

    /** `newid` and `send`: before anything is written, replies that are
        already there are taken in. */
    method Submit(q: Request) returns (i: Id)
      requires Accounted() && issued < ID_PERIOD && q.Fits()
      modifies `id, `issued, `unflushed, `replies, `ignored, `place, server`undelivered
      ensures Accounted() && issued == old(issued) + 1
      ensures i == issued && i !in old(place) && place.Keys == old(place).Keys + {i} && place[i] == Buffered
      ensures unflushed == old(unflushed) + [(i, q)]
      ensures Waiting() == old(Waiting()) && i !in ignored
      ensures forall j :: j in old(place) && old(place)[j] == Buffered ==> place[j] == Buffered
      ensures forall j :: j in old(ignored) && old(place)[j] == Buffered ==> j in ignored
    {
      hide EncodeReply, NextId, NewId, Reply.Fits, Request.Fits, Ledger.Balanced, Ledger.Arrival, WaitingOf;
      BalancedFacts(Books());
      var readable: bool := *;
      while readable && server.undelivered != map[]
        modifies `replies, `ignored, `place, server`undelivered
        invariant Accounted() && Waiting() == old(Waiting()) && place.Keys == old(place).Keys
        invariant ignored <= old(ignored)
        invariant forall i :: i in place && old(place)[i] == Buffered ==> place[i] == Buffered
        invariant forall i :: i in old(ignored) && old(place)[i] == Buffered ==> i in ignored
        decreases server.undelivered.Keys
      {
        BalancedFacts(Books());
        var _ := Poll();
        readable := *;
      }
      i := Append(q);
    }

    method Append(q: Request) returns (i: Id)
      requires Accounted() && issued < ID_PERIOD && q.Fits()
      modifies `id, `issued, `unflushed, `place
      ensures Accounted() && issued == old(issued) + 1
      ensures i == issued && i !in old(place) && place == old(place)[i := Buffered] && i !in ignored
      ensures unflushed == old(unflushed) + [(i, q)] && Waiting() == old(Waiting())
    {
      hide EncodeReply, Reply.Fits, Request.Fits, NewId, NextId, Ledger.Balanced;
      ghost var before := Books();
      NewIdStep(issued);
      FreshId(issued);
      IssuingBalanced(before, q);
      var n := NewId(id);
      i := n.0;
      id := n.1;
      issued := issued + 1;
      unflushed := unflushed + [(i, q)];
      place := place[i := Buffered];
      assert Books() == before.Issuing(q);
    }

    lemma BufferedPlace()
      requires Accounted()
      ensures forall k :: k in unflushed ==> k.0 in place && place[k.0] == Buffered
    {
      forall k | k in unflushed
        ensures k.0 in place && place[k.0] == Buffered
      {
        assert k.0 in UnflushedIds(unflushed);
        assert Books().InPlace(k.0);
      }
    }

    /** A request sent and flushed: it takes effect now, and its reply can be
        awaited. */
    method Call(q: Request) returns (i: Id)
      requires Valid() && issued < ID_PERIOD && q.Fits()
      modifies `id, `issued, `unflushed, `replies, `ignored, `place, server
      ensures Valid() && unflushed == [] && issued == old(issued) + 1
      ensures i == issued && i !in old(place) && i !in old(Waiting()) && Waiting() == old(Waiting()) + {i}
      ensures i !in InflightIds()
      ensures i in server.answers && i in server.asked && server.asked[i] == q && i !in old(server.asked)
      ensures Served(q, old(server.files), old(server.handles), server.answers[i], server.files, server.handles)
      ensures Remembered(old(server.Past()), server.Past())
    {
      hide EncodeReply, NextId, Reply.Fits, Request.Fits, Ledger.Balanced, Served, IdAt, WaitingOf, Remembered;
      ghost var closes := unflushed;
      BufferedPlace();
      WaitingIssued(place, ignored);
      i := Submit(q);
      assert forall k :: k in closes ==> k.0 in ignored && k.1.Close?;
      FlushCloses(closes, i, q);
      ghost var past := server.Past();
      FlushOne();
      assert i !in past.asked;
      RememberedKeys(old(server.Past()), past);
      RememberedOn(old(server.Past()), past, server.Past());
      forall k | k in existenceInflight
        ensures k.0 != i
      {
        var n :| 0 <= n < |existenceInflight| && existenceInflight[n] == k;
        assert existenceInflight[n].0 in old(Waiting());
      }
    }

    /** Everything but the last request, all of it closing of handles. */
    method FlushCloses(ghost closes: seq<(Id, Request)>, ghost i: Id, ghost q: Request)
      requires Accounted() && unflushed == closes + [(i, q)]
      requires forall k :: k in closes ==> k.0 in ignored && k.1.Close?
      modifies `unflushed, `place, server
      ensures Accounted() && unflushed == [(i, q)]
      ensures i in old(place) && old(place)[i] == Buffered ==> i in place && place[i] == Buffered
      ensures place.Keys == old(place).Keys && Waiting() == old(Waiting())
      ensures server.files == old(server.files) && server.handles == old(server.handles)
      ensures Remembered(old(server.Past()), server.Past())
    {
      hide EncodeReply, NextId, Reply.Fits, Request.Fits, Ledger.Balanced, Served, IdAt, WaitingOf, Remembered;
      ghost var n := 0;
      assert Remembered(server.Past(), server.Past()) by { RememberedSame(server.Past()); }
      while |unflushed| > 1
        invariant Accounted() && n <= |closes| && unflushed == closes[n..] + [(i, q)]
        invariant place.Keys == old(place).Keys && Waiting() == old(Waiting())
        invariant i in old(place) && old(place)[i] == Buffered ==> i in place && place[i] == Buffered
        invariant server.files == old(server.files) && server.handles == old(server.handles)
        invariant Remembered(old(server.Past()), server.Past())
        decreases |unflushed|
      {
        ghost var k := unflushed[0];
        assert k == closes[n] && k in closes;
        assert closes[n..][1..] == closes[n + 1..];
        ghost var files, handles := server.files, server.handles;
        ghost var past := server.Past();
        DistinctFront();
        FlushOne();
        RememberedOn(old(server.Past()), past, server.Past());
        ServedClose(k.1, files, handles, server.answers[k.0], server.files, server.handles);
        n := n + 1;
      }
    }

    lemma DistinctFront()
      requires Accounted() && |unflushed| > 1
      ensures unflushed[0].0 in place && place[unflushed[0].0] == Buffered
      ensures unflushed[|unflushed| - 1].0 != unflushed[0].0
    {
      BufferedPlace();
    }

    /** Waits for the reply to one request, stashing or dropping the others as
        they arrive.  It ends because every reply that comes in was on its
        way, and this one is. */
    method Await(i: Id) returns (reply: Bytes)
      requires Accounted() && i in Waiting()
      modifies `replies, `ignored, `place, server`undelivered
      ensures Accounted() && Waiting() == old(Waiting()) - {i}
      ensures i < UINT32 && i in server.answers && server.answers[i].Fits()
      ensures reply == EncodeReply(i, server.answers[i])
      ensures place.Keys == old(place).Keys && place[i] == Consumed
      ensures ignored <= old(ignored)
      ensures forall j :: j in place && old(place)[j] == Buffered ==> place[j] == Buffered
      ensures forall j :: j in old(ignored) && old(place)[j] == Buffered ==> j in ignored
    {
      hide EncodeReply, IdSet, NextId, Reply.Fits, Request.Fits, UnflushedIds, Ledger.InPlace;
      Arriving(i);
      while i !in replies
        invariant i !in replies ==> server.undelivered != map[]
        invariant Accounted() && Waiting() == old(Waiting()) && place.Keys == old(place).Keys
        invariant ignored <= old(ignored)
        invariant forall j :: j in place && old(place)[j] == Buffered ==> place[j] == Buffered
        invariant forall j :: j in old(ignored) && old(place)[j] == Buffered ==> j in ignored
        decreases server.undelivered.Keys
      {
        BalancedFacts(Books());
        var _ := Poll();
        Arriving(i);
      }
      reply := TakeReply(i);
    }

    lemma Arriving(i: Id)
      requires Accounted() && i in Waiting()
      ensures i !in replies ==> server.undelivered != map[]
    {
      assert Books().InPlace(i);
    }

    method TakeReply(i: Id) returns (reply: Bytes)
      requires Accounted() && i in replies
      modifies `replies, `place
      ensures Accounted() && place == old(place)[i := Consumed]
      ensures i < UINT32 && i in server.answers && server.answers[i].Fits()
      ensures reply == EncodeReply(i, server.answers[i])
    {
      hide EncodeReply, NextId, Reply.Fits, Request.Fits, Ledger.Balanced;
      ghost var before := Books();
      HandingBalanced(before, i);
      reply := replies[i];
      replies := replies - {i};
      place := place[i := Consumed];
      assert Books() == before.Handing(i);
    }

    /** Nobody will ask for this reply.  If it was stashed already the id
        stays in the set all the same. */
    method Ignore(i: Id)
      requires Accounted() && i in place && place[i] != Consumed
      modifies `replies, `ignored, `place
      ensures Accounted() && Waiting() == old(Waiting()) - {i}
      ensures ignored == old(ignored) + {i}
      ensures place == if old(place)[i] == Stashed then old(place)[i := Dropped] else old(place)
    {
      hide EncodeReply, NextId, Reply.Fits, Request.Fits, Ledger.Balanced, WaitingOf;
      ghost var before := Books();
      IgnoringBalanced(before, i);
      if i in replies {
        replies := replies - {i};
        place := place[i := Dropped];
      }
      ignored := ignored + {i};
      assert Books() == before.Ignoring(i);
    }

    method Ready(i: Id) returns (r: bool)
      requires Accounted() && i in place
      ensures r <==> place[i] == Stashed
    {
      assert Books().InPlace(i);
      r := i in replies;
    }

    /** Closes a handle without waiting, or even flushing. */
    method CloseHandle(handle: Bytes)
      requires Valid() && issued < ID_PERIOD && |handle| < UINT32
      modifies `id, `issued, `unflushed, `replies, `ignored, `place, server`undelivered
      ensures Valid() && issued == old(issued) + 1
      ensures Waiting() == old(Waiting())
      // the request goes out with the next, and its reply is of no interest
      ensures unflushed == old(unflushed) + [(issued, Close(handle))] && issued in ignored
    {
      hide EncodeReply, IdSet, NextId, Reply.Fits, UnflushedIds, Ledger.InPlace;
      BufferedPlace();
      var i := Submit(Close(handle));
      Ignore(i);
    }

    ghost function InflightIds(): set<Id>
      reads `existenceInflight
    {
      set k | k in existenceInflight :: k.0
    }

    /** Awaiting a reply that is no existence test. */
    method AwaitOwn(i: Id) returns (reply: Bytes)
      requires Valid() && i in Waiting() && i !in InflightIds()
      modifies `replies, `ignored, `place, server`undelivered
      ensures Valid() && Waiting() == old(Waiting()) - {i}
      ensures i < UINT32 && i in server.answers && server.answers[i].Fits()
      ensures reply == EncodeReply(i, server.answers[i])
      ensures i in place && place[i] == Consumed
    {
      hide EncodeReply, IdSet, NextId, Reply.Fits, UnflushedIds, Ledger.InPlace, Accounted;
      BufferedPlace();
      StillInflight(i);
      reply := Await(i);
    }

    lemma StillInflight(i: Id)
      requires i !in InflightIds()
      ensures forall k :: 0 <= k < |existenceInflight| ==> existenceInflight[k].0 != i
    {
      forall k | 0 <= k < |existenceInflight|
        ensures existenceInflight[k].0 != i
      {
        assert existenceInflight[k] in existenceInflight;
      }
    }

    method IgnoreOwn(i: Id)
      requires Valid() && i in Waiting() && i !in InflightIds()
      modifies `replies, `ignored, `place
      ensures Valid() && Waiting() == old(Waiting()) - {i}
    {
      hide EncodeReply, IdSet, NextId, Reply.Fits, UnflushedIds, Ledger.InPlace, Accounted;
      StillInflight(i);
      Ignore(i);
    }

    // Existence tests -------------------------------------------------------------

    /** What the existence cache will say once the answers in flight are in. */
    ghost function Known(): map<Path, bool>
      reads `existence, `existenceInflight, server
    {
      CacheAfter(existence, existenceInflight, server.answers)
    }

    lemma KnownIsCache()
      requires existenceInflight == []
      ensures Known() == existence
    {
    }

    /** Asks ahead whether `path` exists. */
    method PrefigureExists(path: Path)
      requires Valid() && issued < ID_PERIOD && |path| < UINT32
      modifies this, server
      ensures Valid() && issued == old(issued) + 1
      ensures server.files == old(server.files) && server.handles == old(server.handles)
      ensures Known() == old(Known())[path := path in server.files]
      ensures existence == old(existence) && |existenceInflight| == |old(existenceInflight)| + 1
      ensures old(Waiting()) <= Waiting()
      ensures Remembered(old(server.Past()), server.Past())
    {
      hide EncodeReply, IdSet, NextId, Reply.Fits, UnflushedIds, Ledger.InPlace, Served, CacheAfter;
      ghost var before, answers := existenceInflight, server.answers;
      WaitingAnswered();
      ghost var files, handles := server.files, server.handles;
      var i := Call(Stat(path));
      ServedStat(Stat(path), files, handles, server.answers[i], server.files, server.handles);
      CacheStable(existence, before, answers, server.answers);
      CacheSnoc(existence, before, (i, path), server.answers);
      existenceInflight := existenceInflight + [(i, path)];
    }

    lemma WaitingAnswered()
      requires Accounted()
      ensures forall i :: i in Waiting() ==> i in server.answers
    {
      forall i | i in Waiting()
        ensures i in server.answers
      {
        assert Books().InPlace(i);
      }
    }

    /** Takes one answer in flight into the cache. */
    method TakeAnswer()
      requires Valid() && existenceInflight != []
      modifies `replies, `ignored, `place, `existence, `existenceInflight, server`undelivered
      ensures Valid() && existenceInflight == old(existenceInflight)[1..]
      ensures Known() == old(Known())
      ensures Waiting() == old(Waiting()) - {old(existenceInflight)[0].0}
    {
      hide EncodeReply, IdSet, NextId, Reply.Fits, Reply.Type, UnflushedIds, Ledger.InPlace, Served;
      BufferedPlace();
      var (i, path) := existenceInflight[0];
      var reply := Await(i);
      ReplyFields(i, server.answers[i]);
      TypeIsAttrs(server.answers[i]);
      existence := existence[path := reply[0] as int == SSH_FXP_ATTRS];
      existenceInflight := existenceInflight[1..];
    }

    /** Whether `path` exists, from what was prefetched or, if it was not,
        from a test made now.  It calls itself at most once. */
    method Exists(path: Path) returns (r: bool)
      requires Valid() && |path| < UINT32
      requires path !in Known() ==> issued < ID_PERIOD
      modifies this, server
      ensures Valid() && existenceInflight == [] && issued <= old(issued) + 1
      ensures path in old(Known()) ==> issued == old(issued)
      ensures server.files == old(server.files) && server.handles == old(server.handles)
      ensures r == if path in old(Known()) then old(Known())[path] else path in server.files
      ensures Known() == old(Known()) - {path}
      ensures existence == Known()
      ensures Remembered(old(server.Past()), server.Past())
      decreases if path in Known() then 0 else 1
    {
      hide EncodeReply, IdSet, NextId, Reply.Fits, UnflushedIds, Ledger.InPlace, Served, Accounted;
      while existenceInflight != []
        invariant Valid() && Known() == old(Known()) && issued == old(issued)
        invariant server.files == old(server.files) && server.handles == old(server.handles)
        invariant server.answers == old(server.answers) && server.asked == old(server.asked)
        decreases |existenceInflight|
      {
        TakeAnswer();
      }
      if path in existence {
        r := existence[path];
        existence := existence - {path};
      } else {
        PrefigureExists(path);
        r := Exists(path);
      }
    }
  }

  lemma {:induction false} ServedClose(q: Request, files: Snapshot, handles: map<Bytes, Path>,
                                       r: Reply, files': Snapshot, handles': map<Bytes, Path>)
    requires q.Close? && Served(q, files, handles, r, files', handles')
    ensures files' == files && handles' == handles
  {
  }

  lemma {:induction false} ServedStat(q: Request, files: Snapshot, handles: map<Bytes, Path>,
                                      r: Reply, files': Snapshot, handles': map<Bytes, Path>)
    requires q.Stat? && Served(q, files, handles, r, files', handles')
    ensures files' == files && handles' == handles && (r.Attrs? <==> q.path in files)
  {
  }

  lemma {:induction false} TypeIsAttrs(r: Reply)
    ensures r.Type() == SSH_FXP_ATTRS <==> r.Attrs?
  {
  }

  /** More answers to other requests do not matter. */
  lemma {:induction false} CacheStable(cache: map<Path, bool>, inflight: seq<(Id, Path)>, a: map<Id, Reply>,
                                       b: map<Id, Reply>)
    requires forall k :: 0 <= k < |inflight| ==>
               inflight[k].0 in a && inflight[k].0 in b && b[inflight[k].0] == a[inflight[k].0]
    ensures CacheAfter(cache, inflight, a) == CacheAfter(cache, inflight, b)
    decreases |inflight|
  {
    if inflight != [] {
      CacheStable(cache[inflight[0].1 := a[inflight[0].0].Attrs?], inflight[1..], a, b);
    }
  }

  lemma {:induction false} CacheSnoc(cache: map<Path, bool>, inflight: seq<(Id, Path)>, k: (Id, Path),
                                     answers: map<Id, Reply>)
    ensures CacheAfter(cache, inflight + [k], answers) ==
            CacheAfter(cache, inflight, answers)[k.1 := k.0 in answers && answers[k.0].Attrs?]
    decreases |inflight|
  {
    if inflight == [] {
      assert ([k] + [])[1..] == [];
    } else {
      assert (inflight + [k])[1..] == inflight[1..] + [k];
      var (id, path) := inflight[0];
      CacheSnoc(cache[path := id in answers && answers[id].Attrs?], inflight[1..], k, answers);
    }
  }

  lemma {:induction false} FreshId(issued: nat)
    requires issued < ID_PERIOD
    ensures IdAt(issued) == issued + 1
    ensures IdSet(issued + 1) == IdSet(issued) + {issued + 1} && issued + 1 !in IdSet(issued)
  {
  }

  lemma {:induction false} UnflushedBack(unflushed: seq<(Id, Request)>, k: (Id, Request))
    ensures UnflushedIds(unflushed + [k]) == UnflushedIds(unflushed) + {k.0}
    ensures forall j :: 0 <= j < |unflushed| ==> unflushed[j].0 in UnflushedIds(unflushed)
  {
    assert k in unflushed + [k];
    assert forall j :: 0 <= j < |unflushed| ==> unflushed[j] in unflushed;
    forall i | i in UnflushedIds(unflushed)
      ensures i in UnflushedIds(unflushed + [k])
    {
      var j :| j in unflushed && j.0 == i;
      assert j in unflushed + [k];
    }
  }

  lemma {:induction false} UnflushedFront(unflushed: seq<(Id, Request)>)
    requires unflushed != []
    requires forall i, j :: 0 <= i < j < |unflushed| ==> unflushed[i].0 != unflushed[j].0
    ensures unflushed[0].0 in UnflushedIds(unflushed)
    ensures UnflushedIds(unflushed[1..]) == UnflushedIds(unflushed) - {unflushed[0].0}
  {
    assert unflushed[0] in unflushed;
    forall i
      ensures i in UnflushedIds(unflushed[1..]) <==> i in UnflushedIds(unflushed) - {unflushed[0].0}
    {
      if i in UnflushedIds(unflushed[1..]) {
        var k :| k in unflushed[1..] && k.0 == i;
        assert k in unflushed;
      }
      if i in UnflushedIds(unflushed) && i != unflushed[0].0 {
        var k :| k in unflushed && k.0 == i;
        assert k in unflushed[1..];
      }
    }
  }
}
