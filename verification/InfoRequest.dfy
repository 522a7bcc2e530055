/** The client's answers to information requests of the server: one InfoReq object for
    each request identifier, created by the first signal and removed by "done". */
module InfoRequest {
  import opened Wrappers
  import opened Sequences

  // ---------- comparing without regard to case ----------

  function Lower(c: char): char {
    if 'A' <= c <= 'Z' then c - 'A' + 'a' else c
  }

  /** boost::iequals */
  predicate IEquals(a: string, b: string) {
    |a| == |b| && forall i :: 0 <= i < |a| ==> Lower(a[i]) == Lower(b[i])
  }

  // ---------- signals and replies ----------

  /** InfoRequest(id, session, state, handler, type, params); `answer` is what the user
      enters if asked, None if nothing can be read. */
  datatype Signal = Signal(id: string, session: string, state: string, type_: string, answer: Option<string>)

  datatype Progress = Init | Working | Responded

  datatype Reply = Reply(id: string, state: string, resp: map<string, string>)

  const WORKING := "working"
  const RESPONSE := "response"

  /** handleInfoReq: what it leaves in the response. */
  function HandleInfoReq(type_: string, answer: Option<string>, resp: map<string, string>): map<string, string> {
    if IEquals(type_, "password") && answer.Some? then resp["password" := answer.value] else resp
  }

  // ---------- one request ----------

  datatype Req = Req(progress: Progress, resp: map<string, string>)

  /** InfoReq::process for a signal with the request's own identifier: the request
      afterwards, None if it is removed, and the replies. */
  function AfterSignal(r: Req, s: Signal): (Option<Req>, seq<Reply>) {
    if r.progress.Init? && IEquals("request", s.state) then
      (Some(Req(Working, HandleInfoReq(s.type_, s.answer, r.resp))), [Reply(s.id, WORKING, map[])])
    else if r.progress.Working? && IEquals("waiting", s.state) then
      (Some(r.(progress := Responded)), [Reply(s.id, RESPONSE, r.resp)])
    else if IEquals("done", s.state) then (None, [])
    else (Some(r), [])
  }

  const NEW := Req(Init, map[])

  /** The same, when there may be no request with this identifier yet. */
  function ProcessAny(r: Option<Req>, s: Signal): (Option<Req>, seq<Reply>) {
    AfterSignal(if r.Some? then r.value else NEW, s)
  }

  // ---------- the session ----------

  datatype Config = Config(runSync: bool, path: string)

  predicate Concerns(c: Config, s: Signal) {
    c.runSync && IEquals(s.session, c.path) && IEquals("password", s.type_)
  }

  type Requests = map<string, Req>

  function Get(m: Requests, id: string): Option<Req> {
    if id in m then Some(m[id]) else None
  }

  function Put(m: Requests, id: string, r: Option<Req>): Requests {
    match r
    case Some(q) => m[id := q]
    case None => m - {id}
  }

  function Deliver(c: Config, m: Requests, s: Signal): (Requests, seq<Reply>) {
    if !Concerns(c, s) then (m, [])
    else
      var (r, replies) := ProcessAny(Get(m, s.id), s);
      (Put(m, s.id, r), replies)
  }

  function Run(c: Config, m: Requests, ss: seq<Signal>): (Requests, seq<Reply>)
    decreases |ss|
  {
    if ss == [] then (m, [])
    else
      var (m1, replies) := Deliver(c, m, ss[0]);
      var (m2, more) := Run(c, m1, ss[1..]);
      (m2, replies + more)
  }

  lemma PutAgain(m: Requests, id: string)
    ensures forall r :: Put(m[id := NEW], id, r) == Put(m, id, r)
  {
  }

  class InfoReq {
    const id: string
    var progress: Progress
    var resp: map<string, string>

    constructor (id: string)
      ensures this.id == id && progress == Init && resp == map[]
    {
      this.id := id;
      progress, resp := Init, map[];
    }
  }

  class RemoteSession {
    const runSync: bool
    const path: string
    var infoReqs: map<string, InfoReq>
    var sent: seq<Reply>
    ghost var view: Requests
    ghost var repr: set<InfoReq>

    ghost predicate Valid()
      reads this, repr
    {
      && view.Keys == infoReqs.Keys
      && forall id :: id in infoReqs ==>
           infoReqs[id] in repr && infoReqs[id].id == id && Shows(id)
    }

    ghost predicate Shows(id: string)
      requires id in infoReqs && id in view && infoReqs[id] in repr
      reads this, repr
    {
      view[id] == Req(infoReqs[id].progress, infoReqs[id].resp)
    }

    constructor (runSync: bool, path: string)
      ensures Valid() && view == map[] && sent == [] && repr == {}
      ensures this.runSync == runSync && this.path == path
    {
      this.runSync, this.path := runSync, path;
      infoReqs, sent, view, repr := map[], [], map[], {};
    }

    /** RemoteDBusServer::infoResponse */
    method InfoResponse(id: string, state: string, resp: map<string, string>)
      modifies this`sent
      ensures sent == old(sent) + [Reply(id, state, resp)]
    {
      sent := sent + [Reply(id, state, resp)];
    }

    method RemoveInfoReq(id: string)
      requires Valid()
      modifies this`infoReqs, this`view
      ensures Valid() && view == old(view) - {id}
    {
      infoReqs := infoReqs - {id};
      view := view - {id};
    }

    /** InfoReq::process */
    method Process(req: InfoReq, s: Signal)
      requires Valid() && req.id in infoReqs && infoReqs[req.id] == req && s.id == req.id
      modifies this`infoReqs, this`view, this`sent, repr
      ensures Valid()
      ensures var (r, replies) := AfterSignal(old(view[req.id]), s);
        view == Put(old(view), s.id, r) && sent == old(sent) + replies
    {
      hide IEquals, HandleInfoReq;
      assert Shows(req.id);
      if req.progress.Init? && IEquals("request", s.state) {
        InfoResponse(req.id, WORKING, map[]);
        req.progress := Working;
        req.resp := HandleInfoReq(s.type_, s.answer, req.resp);
        view := view[req.id := Req(Working, req.resp)];
      } else if req.progress.Working? && IEquals("waiting", s.state) {
        InfoResponse(req.id, RESPONSE, req.resp);
        req.progress := Responded;
        view := view[req.id := Req(Responded, req.resp)];
      } else if IEquals("done", s.state) {
        RemoveInfoReq(req.id);
      }
    }

    /** RemoteSession::infoReq */
    method HandleSignal(s: Signal)
      requires Valid()
      modifies this, repr
      ensures Valid() && fresh(repr - old(repr))
      ensures var (m, replies) := Deliver(Config(runSync, path), old(view), s);
        view == m && sent == old(sent) + replies
    {
      hide IEquals, AfterSignal;
      ghost var v := view;
      if runSync && IEquals(s.session, path) {
        if IEquals("password", s.type_) {
          PutAgain(v, s.id);
          if s.id !in infoReqs {
            var passwd := new InfoReq(s.id);
            infoReqs := infoReqs[s.id := passwd];
            view := view[s.id := NEW];
            repr := repr + {passwd};
          }
          Process(infoReqs[s.id], s);
        }
      }
    }
  }

  // ---------- the protocol of one identifier ----------

  predicate IsDone(s: Signal) {
    IEquals("done", s.state)
  }

  function RunOne(r: Option<Req>, ss: seq<Signal>): (Option<Req>, seq<Reply>)
    decreases |ss|
  {
    if ss == [] then (r, [])
    else
      var (r1, replies) := ProcessAny(r, ss[0]);
      var (r2, more) := RunOne(r1, ss[1..]);
      (r2, replies + more)
  }

  /** The signals of one identifier that the session reacts to. */
  function SignalsOf(c: Config, ss: seq<Signal>, id: string): seq<Signal> {
    if ss == [] then []
    else (if ss[0].id == id && Concerns(c, ss[0]) then [ss[0]] else []) + SignalsOf(c, ss[1..], id)
  }

  function HasReplyId(id: string): Reply -> bool {
    (r: Reply) => r.id == id
  }

  function RepliesOf(rs: seq<Reply>, id: string): seq<Reply> {
    Filter(HasReplyId(id), rs)
  }

  lemma DeliverOther(c: Config, m: Requests, s: Signal, id: string)
    ensures var (m1, replies) := Deliver(c, m, s);
      if s.id == id && Concerns(c, s) then
        (Get(m1, id), RepliesOf(replies, id)) == ProcessAny(Get(m, id), s)
      else
        Get(m1, id) == Get(m, id) && RepliesOf(replies, id) == []
  {
    hide IEquals;
    var (m1, replies) := Deliver(c, m, s);
    if replies != [] {
      assert replies == [replies[0]] && replies[0].id == s.id;
      assert replies[1..] == [];
      assert RepliesOf(replies, id) == if s.id == id then replies else [];
    }
  }

  /** Requests do not disturb each other: what an identifier gets in any interleaving is
      what its own signals alone would have caused. */
  lemma {:induction false} NonInterference(c: Config, m: Requests, ss: seq<Signal>, id: string)
    ensures var (m', replies) := Run(c, m, ss);
      (Get(m', id), RepliesOf(replies, id)) == RunOne(Get(m, id), SignalsOf(c, ss, id))
    decreases |ss|
  {
    hide Deliver, ProcessAny, Get, Concerns;
    if ss != [] {
      var (m1, replies) := Deliver(c, m, ss[0]);
      var (m2, more) := Run(c, m1, ss[1..]);
      DeliverOther(c, m, ss[0], id);
      NonInterference(c, m1, ss[1..], id);
      FilterConcat(HasReplyId(id), replies, more);
      var own, tail := SignalsOf(c, ss, id), SignalsOf(c, ss[1..], id);
      if ss[0].id == id && Concerns(c, ss[0]) {
        assert own[0] == ss[0] && own[1..] == tail;
      } else {
        assert own == tail;
        assert [] + RepliesOf(more, id) == RepliesOf(more, id);
      }
    }
  }

  lemma {:induction false} RunOneConcat(r: Option<Req>, a: seq<Signal>, b: seq<Signal>)
    ensures RunOne(r, a + b).0 == RunOne(RunOne(r, a).0, b).0
    decreases |a|
  {
    hide ProcessAny;
    if a == [] {
      assert a + b == b;
    } else {
      assert (a + b)[1..] == a[1..] + b;
      RunOneConcat(ProcessAny(r, a[0]).0, a[1..], b);
    }
  }

  lemma DoneRemoves(r: Option<Req>, s: Signal)
    requires IsDone(s)
    ensures ProcessAny(r, s) == (None, [])
  {
    assert !IEquals("request", s.state) && !IEquals("waiting", s.state);
  }

  lemma DoneAtEnd(ss: seq<Signal>)
    requires ss != [] && IsDone(ss[|ss| - 1])
    ensures RunOne(None, ss).0 == None
  {
    hide IEquals, ProcessAny;
    var n := |ss| - 1;
    RunOneConcat(None, ss[..n], [ss[n]]);
    assert ss == ss[..n] + [ss[n]];
    DoneRemoves(RunOne(None, ss[..n]).0, ss[n]);
    assert [ss[n]][1..] == [];
  }

  lemma NothingMore(r: Option<Req>)
    ensures RunOne(r, []) == (r, [])
  {
  }

  /** The first signal with this state; |ss| if there is none. */
  function FirstWith(ss: seq<Signal>, state: string): (n: nat)
    ensures n <= |ss|
    ensures n < |ss| ==> IEquals(state, ss[n].state)
    ensures forall k :: 0 <= k < n ==> !IEquals(state, ss[k].state)
  {
    if ss == [] then 0
    else if IEquals(state, ss[0].state) then 0
    else 1 + FirstWith(ss[1..], state)
  }

  /** The response after the user was asked for a password: empty if nothing was read. */
  function Entered(answer: Option<string>): map<string, string> {
    match answer
    case None => map[]
    case Some(password) => map["password" := password]
  }

  lemma EnteredIsHandled(s: Signal)
    requires IEquals("password", s.type_)
    ensures HandleInfoReq(s.type_, s.answer, map[]) == Entered(s.answer)
  {
    assert IEquals(s.type_, "password");
  }

  /** Nothing is sent in a state that waits for another signal. */
  lemma {:induction false} SilentUntil(r: Req, ss: seq<Signal>, n: nat)
    requires n <= |ss| && !r.progress.Responded?
    requires forall i :: 0 <= i < n ==> !IsDone(ss[i])
    requires forall i :: 0 <= i < n ==> !IEquals(if r.progress.Init? then "request" else "waiting", ss[i].state)
    ensures RunOne(Some(r), ss) == RunOne(Some(r), ss[n..])
    ensures r == NEW && n > 0 ==> RunOne(None, ss) == RunOne(Some(r), ss)
    decreases n
  {
    hide IEquals, HandleInfoReq;
    if n == 0 {
      assert ss[0..] == ss;
    } else {
      SilentUntil(r, ss[1..], n - 1);
      assert ss[1..][n - 1..] == ss[n..];
      var (r2, more) := RunOne(Some(r), ss[1..]);
      assert [] + more == more;
    }
  }

  lemma {:induction false} SilentAfterResponse(r: Req, ss: seq<Signal>)
    requires r.progress.Responded? && forall i :: 0 <= i < |ss| ==> !IsDone(ss[i])
    ensures RunOne(Some(r), ss) == (Some(r), [])
    decreases |ss|
  {
    hide IEquals, HandleInfoReq;
    if ss != [] {
      SilentAfterResponse(r, ss[1..]);
      assert ProcessAny(Some(r), ss[0]) == (Some(r), []);
      var none: seq<Reply> := [];
      assert none + none == none;
    }
  }

  /** One step of the run, with its first reply. */
  lemma RunOneHead(r: Option<Req>, ss: seq<Signal>)
    requires ss != []
    ensures var (r1, replies) := ProcessAny(r, ss[0]);
      RunOne(r, ss) == (RunOne(r1, ss[1..]).0, replies + RunOne(r1, ss[1..]).1)
  {
  }

  /** The replies to the signals of one identifier, without "done", exactly. */
  function ExpectedReplies(ss: seq<Signal>, id: string): seq<Reply> {
    var n := FirstWith(ss, "request");
    if n == |ss| then []
    else
      [Reply(id, "working", map[])] +
        (if FirstWith(ss[n + 1..], "waiting") == |ss| - n - 1 then []
         else [Reply(id, "response", Entered(ss[n].answer))])
  }

  lemma {:induction false} NoRequestYet(ss: seq<Signal>)
    requires forall i :: 0 <= i < |ss| ==> !IsDone(ss[i]) && !IEquals("request", ss[i].state)
    ensures RunOne(None, ss).1 == []
  {
    hide IEquals, HandleInfoReq, RunOne;
    SilentUntil(NEW, ss, |ss|);
    assert ss[|ss|..] == [];
    NothingMore(Some(NEW));
    if ss == [] { NothingMore(None); }
  }

  lemma {:induction false} AfterRequest(ss: seq<Signal>, id: string, answer: Option<string>)
    requires forall i :: 0 <= i < |ss| ==> ss[i].id == id && !IsDone(ss[i])
    ensures RunOne(Some(Req(Working, Entered(answer))), ss).1 ==
      if FirstWith(ss, "waiting") == |ss| then [] else [Reply(id, "response", Entered(answer))]
  {
    hide IEquals, HandleInfoReq, RunOne;
    var r := Req(Working, Entered(answer));
    var m := FirstWith(ss, "waiting");
    SilentUntil(r, ss, m);
    if m == |ss| {
      assert ss[m..] == [];
      NothingMore(Some(r));
    } else {
      RunOneHead(Some(r), ss[m..]);
      assert ss[m..][1..] == ss[m + 1..];
      SilentAfterResponse(r.(progress := Responded), ss[m + 1..]);
    }
  }

  lemma {:induction false} RepliesExact(ss: seq<Signal>, id: string)
    requires forall i :: 0 <= i < |ss| ==> ss[i].id == id && !IsDone(ss[i]) && IEquals("password", ss[i].type_)
    ensures RunOne(None, ss).1 == ExpectedReplies(ss, id)
  {
    hide IEquals, HandleInfoReq, RunOne;
    var n := FirstWith(ss, "request");
    if n == |ss| {
      NoRequestYet(ss);
    } else {
      SilentUntil(NEW, ss, n);
      assert ss[0..] == ss;
      EnteredIsHandled(ss[n]);
      if n == 0 { RunOneHead(None, ss); } else { RunOneHead(Some(NEW), ss[n..]); }
      assert ss[n..][1..] == ss[n + 1..];
      AfterRequest(ss[n + 1..], id, ss[n].answer);
    }
  }

  /** For every interleaving of signals over many identifiers, from one "done" signal of an
      identifier up to the next: the server gets "working" if and only if there is a
      "request", and then "response", with what the user entered at the first request, if
      and only if a "waiting" follows it; each once, in this order, and nothing else. */
  lemma {:induction false} RepliesBetweenDone(c: Config, before: seq<Signal>, segment: seq<Signal>, id: string)
    requires var own := SignalsOf(c, before, id); own == [] || IsDone(own[|own| - 1])
    requires var own := SignalsOf(c, segment, id); forall i :: 0 <= i < |own| ==> !IsDone(own[i])
    ensures var (m, _) := Run(c, map[], before);
      var (_, replies) := Run(c, m, segment);
      RepliesOf(replies, id) == ExpectedReplies(SignalsOf(c, segment, id), id)
  {
    hide Run, RunOne, SignalsOf, RepliesOf, IEquals, ExpectedReplies;
    var earlier, own := SignalsOf(c, before, id), SignalsOf(c, segment, id);
    NothingMore(None);
    var (m, _) := Run(c, map[], before);
    NonInterference(c, map[], before, id);
    if earlier != [] { DoneAtEnd(earlier); }
    assert Get(m, id) == None;
    NonInterference(c, m, segment, id);
    OwnSignals(c, segment, id);
    RepliesExact(own, id);
  }

  /** The signals that count for an identifier: those of a session that runs a sync, for
      this session, and about a password. */
  lemma {:induction false} OwnSignals(c: Config, ss: seq<Signal>, id: string)
    ensures forall s :: s in SignalsOf(c, ss, id) <==>
      s in ss && s.id == id && c.runSync && IEquals(s.session, c.path) && IEquals("password", s.type_)
    ensures forall i :: 0 <= i < |SignalsOf(c, ss, id)| ==>
      var s := SignalsOf(c, ss, id)[i]; s.id == id && IEquals("password", s.type_)
  {
    hide IEquals;
    if ss != [] {
      OwnSignals(c, ss[1..], id);
      assert ss == [ss[0]] + ss[1..];
    }
    var own := SignalsOf(c, ss, id);
    assert forall i :: 0 <= i < |own| ==> own[i] in own;
  }

  /** Strings are compared without regard to case. */
  lemma CaseDoesNotMatter()
    ensures IEquals("password", "PassWord") && IEquals("DONE", "done")
    ensures !IEquals("done", "don") && !IEquals("waiting", "working")
  {
    assert "waiting"[1] == 'a' && "working"[1] == 'o';
  }
}
