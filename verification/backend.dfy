/**
 * The Express backend's in-memory state (backend/app.js): a per-process visit
 * counter and an append-only list of memos, with one state transition per
 * route. HTTP plumbing, JSON (de)serialisation and `app.listen` are not
 * modelled; `new Date()` is a timestamp supplied by the caller.
 */
module Backend {
  import opened Wrappers

  /** The `new Date()` taken when a memo is posted; opaque to the model. */
  type Timestamp = int

  /** One stored memo: the request body's `content` (absent when the body has none) and its creation time. */
  datatype Memo = Memo(content: Option<string>, createdAt: Timestamp)

  /** The routes of the backend, with what each reads from its request. */
  datatype Request =
    | Root
    | Visit
    | PostMemo(content: Option<string>, now: Timestamp)
    | GetMemo
    | UploadPhoto

  /** The JSON (or text) body each route sends back. */
  datatype Reply =
    | Text(text: string)               // GET /: res.send(...)
    | VisitCount(visitCount: nat)      // GET /visit: { visit_count }
    | Saved(ok: bool)                  // POST /memo: { ok: true }
    | MemoList(memos: seq<Memo>)       // GET /memo: the memo array
    | Message(message: string)         // POST /uploadPhoto: { message }

  /** The module-level state of the process. */
  datatype State = State(visitCount: nat, memos: seq<Memo>)

  const RootText: string := "Cloud project backend server is running!"
  const UploadMessage: string := "사진 업로드는 추후 S3 연결"

  /** The state at process start: no visits, no memos. */
  const Initial: State := State(0, [])

  /**
   * One request against the state: the new state and the reply. Only /visit
   * touches the counter (by exactly one) and only POST /memo touches the memo
   * list (by appending exactly one entry, with no check on its content).
   */
  function Handle(s: State, req: Request): (r: (State, Reply))
    ensures r.0.visitCount == if req.Visit? then s.visitCount + 1 else s.visitCount
    ensures r.0.memos == if req.PostMemo? then s.memos + [Memo(req.content, req.now)] else s.memos
    ensures req.Visit? ==> r.1 == VisitCount(r.0.visitCount)
    ensures req.PostMemo? ==> r.1 == Saved(true)
    ensures req.GetMemo? ==> r.1 == MemoList(s.memos)
    ensures req.UploadPhoto? ==> r.1 == Message(UploadMessage)
    ensures req.Root? ==> r.1 == Text(RootText)
  {
    match req
    case Root => (s, Text(RootText))
    case Visit =>
      var n := s.visitCount + 1;
      (s.(visitCount := n), VisitCount(n))
    case PostMemo(content, now) => (s.(memos := s.memos + [Memo(content, now)]), Saved(true))
    case GetMemo => (s, MemoList(s.memos))
    case UploadPhoto => (s, Message(UploadMessage))
  }

  /**
   * The state after serving `reqs` in order, starting from `s`: the counter
   * has not decreased and the old memo list is a prefix of the new one.
   */
  function Run(s: State, reqs: seq<Request>): (r: State)
    ensures s.visitCount <= r.visitCount
    ensures s.memos <= r.memos
  {
    if reqs == [] then s else Handle(Run(s, reqs[..|reqs| - 1]), reqs[|reqs| - 1]).0
  }

  /** The reply to the `i`-th request of `reqs`, served in order from `s`. */
  function ReplyTo(s: State, reqs: seq<Request>, i: nat): Reply
    requires i < |reqs|
  {
    Handle(Run(s, reqs[..i]), reqs[i]).1
  }

  /** How many of `reqs` are /visit requests. */
  function Visits(reqs: seq<Request>): nat
  {
    if reqs == [] then 0
    else Visits(reqs[..|reqs| - 1]) + (if reqs[|reqs| - 1].Visit? then 1 else 0)
  }

  /** The memos that the POST /memo requests among `reqs` carry, in request order. */
  function Posted(reqs: seq<Request>): seq<Memo>
  {
    if reqs == [] then []
    else
      var last := reqs[|reqs| - 1];
      Posted(reqs[..|reqs| - 1]) + (if last.PostMemo? then [Memo(last.content, last.now)] else [])
  }

  /** After any sequence of requests the counter has grown by exactly the number of /visit calls. */
  lemma {:induction false} RunCountsVisits(s: State, reqs: seq<Request>)
    ensures Run(s, reqs).visitCount == s.visitCount + Visits(reqs)
  {
    if reqs != [] {
      RunCountsVisits(s, reqs[..|reqs| - 1]);
    }
  }

  /** After any sequence of requests the memo list is the old list followed by the posted memos, in order. */
  lemma {:induction false} RunAppendsMemos(s: State, reqs: seq<Request>)
    ensures Run(s, reqs).memos == s.memos + Posted(reqs)
  {
    if reqs != [] {
      RunAppendsMemos(s, reqs[..|reqs| - 1]);
    }
  }

  lemma {:induction false} VisitsOfPrefix(reqs: seq<Request>, n: nat)
    requires n <= |reqs|
    ensures Visits(reqs[..n]) <= Visits(reqs)
    ensures Posted(reqs[..n]) <= Posted(reqs)
  {
    if n < |reqs| {
      var init := reqs[..|reqs| - 1];
      assert reqs[..n] == init[..n];
      VisitsOfPrefix(init, n);
    } else {
      assert reqs[..n] == reqs;
    }
  }

  /**
   * Between any earlier and any later moment the counter never decreases and
   * the earlier memo list is a prefix of the later one (nothing is removed or
   * rewritten).
   */
  lemma CounterMonotoneMemosAppendOnly(s: State, reqs: seq<Request>, n: nat)
    requires n <= |reqs|
    ensures Run(s, reqs[..n]).visitCount <= Run(s, reqs).visitCount
    ensures Run(s, reqs[..n]).memos <= Run(s, reqs).memos
  {
    RunCountsVisits(s, reqs[..n]);
    RunCountsVisits(s, reqs);
    RunAppendsMemos(s, reqs[..n]);
    RunAppendsMemos(s, reqs);
    VisitsOfPrefix(reqs, n);
  }

  lemma {:induction false} VisitsOfVisitsOnly(n: nat)
    ensures Visits(seq(n, _ => Request.Visit)) == n
  {
    if n > 0 {
      var reqs := seq(n, _ => Request.Visit);
      assert reqs[..n - 1] == seq(n - 1, _ => Request.Visit);
      VisitsOfVisitsOnly(n - 1);
    }
  }

  /** From process start, N calls to /visit leave the counter at N. */
  lemma NVisitsFromStart(n: nat)
    ensures Run(Initial, seq(n, _ => Request.Visit)).visitCount == n
  {
    RunCountsVisits(Initial, seq(n, _ => Request.Visit));
    VisitsOfVisitsOnly(n);
  }

  /**
   * From process start, the reply to a /visit is the number of /visit calls
   * served so far, this one included: the replies count 1, 2, 3, ...
   */
  lemma VisitReplyNumbersVisits(reqs: seq<Request>, i: nat)
    requires i < |reqs| && reqs[i].Visit?
    ensures ReplyTo(Initial, reqs, i) == VisitCount(Visits(reqs[..i + 1]))
  {
    RunCountsVisits(Initial, reqs[..i]);
    assert reqs[..i + 1][..i] == reqs[..i];
  }

  /**
   * From process start, GET /memo answers with every memo posted so far,
   * oldest first.
   */
  lemma GetMemoListsPostedOldestFirst(reqs: seq<Request>, i: nat)
    requires i < |reqs| && reqs[i].GetMemo?
    ensures ReplyTo(Initial, reqs, i) == MemoList(Posted(reqs[..i]))
  {
    RunAppendsMemos(Initial, reqs[..i]);
  }

  /** The process's state, updated in place by the route handlers. */
  class Server {
    var visitCount: nat
    var memos: seq<Memo>

    function Snapshot(): State
      reads this
    {
      State(visitCount, memos)
    }

    /** Process start: `let visitCount = 0; let memos = [];` */
    constructor ()
      ensures visitCount == 0 && memos == []
      ensures Snapshot() == Initial
    {
      visitCount := 0;
      memos := [];
    }

    /** GET /: a liveness text; changes nothing. */
    method Root() returns (reply: Reply)
      ensures reply == Text(RootText)
      ensures (Snapshot(), reply) == Handle(Snapshot(), Request.Root)
    {
      reply := Text(RootText);
    }

    /** GET /visit: the counter goes up by one and its new value is returned; the memos are untouched. */
    method Visit() returns (reply: Reply)
      modifies this
      ensures visitCount == old(visitCount) + 1 && memos == old(memos)
      ensures reply == VisitCount(visitCount)
      ensures (Snapshot(), reply) == Handle(old(Snapshot()), Request.Visit)
    {
      visitCount := visitCount + 1;
      reply := VisitCount(visitCount);
    }

    /** POST /memo: the body's content is appended as given, without any check; the reply is always ok. */
    method PostMemo(content: Option<string>, now: Timestamp) returns (reply: Reply)
      modifies this
      ensures memos == old(memos) + [Memo(content, now)] && visitCount == old(visitCount)
      ensures reply == Saved(true)
      ensures (Snapshot(), reply) == Handle(old(Snapshot()), Request.PostMemo(content, now))
    {
      memos := memos + [Memo(content, now)];
      reply := Saved(true);
    }

    /** GET /memo: all memos, oldest first; changes nothing. */
    method GetMemo() returns (reply: Reply)
      ensures reply == MemoList(memos)
      ensures (Snapshot(), reply) == Handle(Snapshot(), Request.GetMemo)
    {
      reply := MemoList(memos);
    }

    /** POST /uploadPhoto: a placeholder message; changes nothing. */
    method UploadPhoto() returns (reply: Reply)
      ensures reply == Message(UploadMessage)
      ensures (Snapshot(), reply) == Handle(Snapshot(), Request.UploadPhoto)
    {
      reply := Message(UploadMessage);
    }

    /** The router: dispatches a request to its handler. */
    method Serve(req: Request) returns (reply: Reply)
      modifies this
      ensures (Snapshot(), reply) == Handle(old(Snapshot()), req)
    {
      match req
      case Root => reply := Root();
      case Visit => reply := Visit();
      case PostMemo(content, now) => reply := PostMemo(content, now);
      case GetMemo => reply := GetMemo();
      case UploadPhoto => reply := UploadPhoto();
    }
  }

}
