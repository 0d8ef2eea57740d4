/**
  Aged-argument compaction of chat-completion bodies, on parsed JSON values.

  As in Go's decoder, JSON null reads as an empty object, an empty array or an
  empty string where one of those is expected.
 */
module Compaction {
  import opened Wrappers

  datatype Json =
    | Null
    | Bool(b: bool)
    | Num(text: string)
    | Str(s: string)
    | Arr(items: seq<Json>)
    | Obj(fields: map<string, Json>)

  function AsObj(j: Json): Option<map<string, Json>> {
    match j case Obj(m) => Some(m) case Null => Some(map[]) case _ => None
  }

  function AsArr(j: Json): Option<seq<Json>> {
    match j case Arr(x) => Some(x) case Null => Some([]) case _ => None
  }

  function AsStr(j: Json): Option<string> {
    match j case Str(s) => Some(s) case Null => Some("") case _ => None
  }

  /** The wire form of the stub: a JSON object inside a JSON string. */
  const STUB := Str("{\"note\":\"arguments removed by relay aged-arg compaction (full text preserved in the session audit trail)\"}")

  // ---- one call ----

  function ToolCallName(call: Json): Option<string> {
    var c := AsObj(call);
    if c.None? || "function" !in c.value then None
    else
      var f := AsObj(c.value["function"]);
      if f.None? || "name" !in f.value then None else AsStr(f.value["name"])
  }

  predicate Wanted(call: Json, prefix: string) {
    ToolCallName(call).Some? && prefix <= ToolCallName(call).value
  }

  /** A call that carries a function object with a name has both as real objects. */
  lemma WantedShape(call: Json, prefix: string)
    requires prefix != "" && Wanted(call, prefix)
    ensures call.Obj? && "function" in call.fields && call.fields["function"].Obj?
    ensures "name" in call.fields["function"].fields && call.fields["function"].fields["name"].Str?
  {
  }

  predicate Stubbed(call: Json) {
    && call.Obj? && "function" in call.fields && call.fields["function"].Obj?
    && "arguments" in call.fields["function"].fields && call.fields["function"].fields["arguments"] == STUB
  }

  function StubCall(call: Json, prefix: string): Json
    requires prefix != ""
  {
    if Wanted(call, prefix) && !Stubbed(call) then
      WantedShape(call, prefix);
      var fn := call.fields["function"].fields;
      Obj(call.fields["function" := Obj(fn["arguments" := STUB])])
    else call
  }

  lemma StubCallKeeps(call: Json, prefix: string)
    requires prefix != ""
    ensures var r := StubCall(call, prefix);
            && StubCall(r, prefix) == r
            && Wanted(r, prefix) == Wanted(call, prefix)
            && AsObj(r).Some? == AsObj(call).Some?
            && (r != call <==> Wanted(call, prefix) && !Stubbed(call))
  {
    if Wanted(call, prefix) && !Stubbed(call) {
      WantedShape(call, prefix);
      var r := StubCall(call, prefix);
      assert r.fields["function"].fields["arguments"] == STUB;
      assert ToolCallName(r) == ToolCallName(call);
    }
  }

  // ---- one message ----

  function ToolCallsOf(msg: Json): Option<seq<Json>> {
    var m := AsObj(msg);
    if m.None? || "tool_calls" !in m.value then None else AsArr(m.value["tool_calls"])
  }

  function CallCount(msg: Json): nat {
    var calls := ToolCallsOf(msg);
    if calls.None? then 0 else |calls.value|
  }

  /** The calls with the first `aged` of them stubbed, whatever they are. */
  function StubCalls(calls: seq<Json>, aged: int, prefix: string): (r: seq<Json>)
    requires prefix != ""
    ensures |r| == |calls|
    ensures forall i :: 0 <= i < |r| ==> r[i] == if i < aged then StubCall(calls[i], prefix) else calls[i]
  {
    seq(|calls|, i requires 0 <= i < |calls| => if i < aged then StubCall(calls[i], prefix) else calls[i])
  }

  predicate NeedsStub(calls: seq<Json>, aged: int, prefix: string) {
    calls != [] && (NeedsStub(calls[..|calls|-1], aged, prefix)
                    || (|calls| - 1 < aged && Wanted(calls[|calls|-1], prefix)))
  }

  /** An aged entry that is not an object makes the rewrite of its message fail. */
  predicate Malformed(calls: seq<Json>, aged: int) {
    calls != [] && (Malformed(calls[..|calls|-1], aged)
                    || (|calls| - 1 < aged && AsObj(calls[|calls|-1]).None?))
  }

  lemma {:induction false} NeedsStubMeans(calls: seq<Json>, aged: int, prefix: string)
    ensures NeedsStub(calls, aged, prefix) <==> exists i :: 0 <= i < |calls| && i < aged && Wanted(calls[i], prefix)
  {
    if calls == [] {
    } else {
      var n := |calls| - 1;
      NeedsStubMeans(calls[..n], aged, prefix);
      assert forall i :: 0 <= i < n ==> calls[..n][i] == calls[i];
    }
  }

  lemma {:induction false} MalformedMeans(calls: seq<Json>, aged: int)
    ensures Malformed(calls, aged) <==> exists i :: 0 <= i < |calls| && i < aged && AsObj(calls[i]).None?
  {
    if calls == [] {
    } else {
      var n := |calls| - 1;
      MalformedMeans(calls[..n], aged);
      assert forall i :: 0 <= i < n ==> calls[..n][i] == calls[i];
    }
  }

  function WithCalls(msg: Json, calls: seq<Json>): Json
    requires msg.Obj?
  {
    Obj(msg.fields["tool_calls" := Arr(calls)])
  }

  /** What the router makes of a message whose first `aged` calls are unprotected. */
  function StubMsg(msg: Json, aged: int, prefix: string): Json
    requires prefix != ""
  {
    var calls := ToolCallsOf(msg);
    if calls.None? || !NeedsStub(calls.value, aged, prefix) || Malformed(calls.value, aged) then msg
    else WithCalls(msg, StubCalls(calls.value, aged, prefix))
  }

  /** Calls among the first `aged` that a rewrite changes. */
  function FreshCount(calls: seq<Json>, aged: int, prefix: string): nat {
    if calls == [] then 0
    else
      var n := |calls| - 1;
      FreshCount(calls[..n], aged, prefix) + if n < aged && Wanted(calls[n], prefix) && !Stubbed(calls[n]) then 1 else 0
  }

  function MsgCount(msg: Json, aged: int, prefix: string): nat
    requires prefix != ""
  {
    var calls := ToolCallsOf(msg);
    if calls.None? || Malformed(calls.value, aged) then 0 else FreshCount(calls.value, aged, prefix)
  }

  // ---- the history ----

  /** Calls in the messages before `i`: the flattened position of message `i`'s first call. */
  function Before(msgs: seq<Json>, i: nat): nat
    requires i <= |msgs|
  {
    if i == 0 then 0 else Before(msgs, i - 1) + CallCount(msgs[i-1])
  }

  function Total(msgs: seq<Json>): nat {
    Before(msgs, |msgs|)
  }

  /** How many calls, counted from the oldest, lie outside the recent window. */
  function AgedCalls(total: nat, window: int): nat {
    if window <= 0 then total else if total > window then total - window else 0
  }

  /** How a message is rewritten, given how many of its calls have aged. */
  type Rewrite = (Json, int) -> Json

  function Stubber(prefix: string): Rewrite
    requires prefix != ""
  {
    (msg, aged) => StubMsg(msg, aged, prefix)
  }

  /** The first `n` messages rewritten, each with the aged calls that fall to it. */
  function Rewritten(f: Rewrite, msgs: seq<Json>, aged: int, n: nat): (r: seq<Json>)
    requires n <= |msgs|
    ensures |r| == n
  {
    if n == 0 then []
    else Rewritten(f, msgs, aged, n - 1) + [f(msgs[n-1], aged - Before(msgs, n - 1))]
  }

  function StubMsgs(msgs: seq<Json>, aged: int, prefix: string): (r: seq<Json>)
    requires prefix != ""
  {
    Rewritten(Stubber(prefix), msgs, aged, |msgs|)
  }

  lemma {:induction false} RewrittenAt(f: Rewrite, msgs: seq<Json>, aged: int, n: nat, i: nat)
    requires i < n <= |msgs|
    ensures Rewritten(f, msgs, aged, n)[i] == f(msgs[i], aged - Before(msgs, i))
  {
    if i == n - 1 {
    } else {
      RewrittenAt(f, msgs, aged, n - 1, i);
    }
  }

  /** A number per message, added up over the first `n`. */
  function Counted(g: (Json, int) -> nat, msgs: seq<Json>, aged: int, n: nat): nat
    requires n <= |msgs|
  {
    if n == 0 then 0 else Counted(g, msgs, aged, n - 1) + g(msgs[n-1], aged - Before(msgs, n - 1))
  }

  function Counter(prefix: string): (Json, int) -> nat
    requires prefix != ""
  {
    (msg, aged) => MsgCount(msg, aged, prefix)
  }

  function StubCount(msgs: seq<Json>, aged: int, prefix: string): nat
    requires prefix != ""
  {
    Counted(Counter(prefix), msgs, aged, |msgs|)
  }

  /** The messages of a body, when it has the shape the router rewrites. */
  function MessagesOf(body: Json): Option<seq<Json>> {
    var top := AsObj(body);
    if top.None? || "messages" !in top.value then None else AsArr(top.value["messages"])
  }

  function WithMessages(body: Json, msgs: seq<Json>): Json
    requires body.Obj?
  {
    Obj(body.fields["messages" := Arr(msgs)])
  }

  /** Compaction of a body; `mentions` is the byte pre-filter's verdict on its text. */
  function Compacted(body: Json, mentions: bool, window: int, prefix: string): (Json, nat) {
    var msgs := MessagesOf(body);
    if window < 0 || prefix == "" || !mentions || msgs.None? then (body, 0)
    else
      var aged := AgedCalls(Total(msgs.value), window);
      var n := StubCount(msgs.value, aged, prefix);
      if n == 0 then (body, 0)
      else (Obj(AsObj(body).value["messages" := Arr(StubMsgs(msgs.value, aged, prefix))]), n)
  }

  // ---- the router's two passes ----

  /** Call `c` of message `m` is at flattened position `from` or later. */
  predicate AtOrAfter(msgs: seq<Json>, m: int, c: int, from: int) {
    0 <= m < |msgs| && 0 <= c < CallCount(msgs[m]) && Before(msgs, m) + c >= from
  }

  /** `flat` lists exactly the calls from position `from` on. */
  ghost predicate Lists(flat: seq<(int, int)>, msgs: seq<Json>, from: int) {
    forall m, c :: (m, c) in flat <==> AtOrAfter(msgs, m, c, from)
  }

  /** Pass 1: walk the calls backwards and stop as soon as the window is full. */
  method FindProtected(msgs: seq<Json>, window: int) returns (flat: seq<(int, int)>)
    requires window >= 0
    ensures Lists(flat, msgs, AgedCalls(Total(msgs), window))
    ensures |flat| == if window < Total(msgs) then window else Total(msgs)
    ensures forall p, q :: p in flat && IsCall(msgs, q) && q !in flat ==> IsCall(msgs, p) && Earlier(q, p)
  {
    flat := [];
    NothingAfterTotal(msgs);
    if window > 0 {
      var mi := |msgs| - 1;
      while mi >= 0 && |flat| < window
        invariant -1 <= mi < |msgs| && |flat| <= window && |flat| <= Total(msgs)
        invariant |flat| < window ==> Total(msgs) - |flat| == Before(msgs, mi + 1)
        invariant Lists(flat, msgs, Total(msgs) - |flat|)
      {
        var calls := ToolCallsOf(msgs[mi]);
        if calls.Some? {
          var ci := |calls.value| - 1;
          while ci >= 0 && |flat| < window
            invariant -1 <= ci < |calls.value| && |flat| <= window
            invariant Total(msgs) - |flat| == Before(msgs, mi) + ci + 1
            invariant Lists(flat, msgs, Total(msgs) - |flat|)
          {
            ListsOneMore(flat, msgs, mi, ci);
            flat := flat + [(mi, ci)];
            ci := ci - 1;
          }
        }
        mi := mi - 1;
      }
    }
    forall p, q | p in flat && IsCall(msgs, q) && q !in flat ensures IsCall(msgs, p) && Earlier(q, p) {
      UnlistedIsEarlier(flat, msgs, Total(msgs) - |flat|, p, q);
    }
  }

  /** A message and a call in it. */
  predicate IsCall(msgs: seq<Json>, p: (int, int)) {
    0 <= p.0 < |msgs| && 0 <= p.1 < CallCount(msgs[p.0])
  }

  /** In an earlier message, or earlier in the same one. */
  predicate Earlier(q: (int, int), p: (int, int)) {
    q.0 < p.0 || (q.0 == p.0 && q.1 < p.1)
  }

  lemma UnlistedIsEarlier(flat: seq<(int, int)>, msgs: seq<Json>, from: int, p: (int, int), q: (int, int))
    requires Lists(flat, msgs, from) && p in flat && IsCall(msgs, q) && q !in flat
    ensures IsCall(msgs, p) && Earlier(q, p)
  {
    assert p == (p.0, p.1) && q == (q.0, q.1);
    assert AtOrAfter(msgs, p.0, p.1, from) && !AtOrAfter(msgs, q.0, q.1, from);
    if p.0 < q.0 {
      BeforeStep(msgs, p.0, q.0);
    }
  }

  lemma {:induction false} BeforeStep(msgs: seq<Json>, i: nat, j: nat)
    requires i <= j <= |msgs|
    ensures Before(msgs, i) <= Before(msgs, j)
    ensures i < j ==> Before(msgs, i) + CallCount(msgs[i]) <= Before(msgs, j)
    decreases j
  {
    if i == j {
    } else {
      BeforeStep(msgs, i, j - 1);
    }
  }

  lemma NothingAfterTotal(msgs: seq<Json>)
    ensures Lists([], msgs, Total(msgs))
  {
    forall m, c ensures !AtOrAfter(msgs, m, c, Total(msgs)) {
      if 0 <= m < |msgs| {
        BeforeStep(msgs, m, |msgs|);
      }
    }
  }

  /** A flattened position names one call. */
  lemma SamePosition(msgs: seq<Json>, m: int, c: int, mi: nat, ci: nat)
    requires mi < |msgs| && ci < CallCount(msgs[mi])
    requires 0 <= m < |msgs| && 0 <= c < CallCount(msgs[m]) && Before(msgs, m) + c == Before(msgs, mi) + ci
    ensures m == mi && c == ci
  {
    if m < mi {
      BeforeStep(msgs, m, mi);
    } else if mi < m {
      BeforeStep(msgs, mi, m);
    }
  }

  lemma ListsOneMore(flat: seq<(int, int)>, msgs: seq<Json>, mi: nat, ci: nat)
    requires mi < |msgs| && ci < CallCount(msgs[mi])
    requires Lists(flat, msgs, Before(msgs, mi) + ci + 1)
    ensures Lists(flat + [(mi, ci)], msgs, Before(msgs, mi) + ci)
  {
    var from := Before(msgs, mi) + ci;
    forall m, c ensures (m, c) in flat + [(mi, ci)] <==> AtOrAfter(msgs, m, c, from) {
      assert (m, c) in flat <==> AtOrAfter(msgs, m, c, from + 1);
      if AtOrAfter(msgs, m, c, from) && Before(msgs, m) + c == from {
        SamePosition(msgs, m, c, mi, ci);
      }
    }
  }

  /** One message of pass 2; `None` is the error that leaves the message as it was. */
  method StubAgedCalls(msg: Json, mi: int, flat: seq<(int, int)>, ghost aged: int, prefix: string) returns (r: Option<(Json, nat)>)
    requires prefix != "" && ToolCallsOf(msg).Some? && msg.Obj?
    requires forall c :: 0 <= c < CallCount(msg) ==> ((mi, c) in flat <==> c >= aged)
    ensures var calls := ToolCallsOf(msg).value;
            r == if Malformed(calls, aged) then None
                 else Some((WithCalls(msg, StubCalls(calls, aged, prefix)), FreshCount(calls, aged, prefix)))
  {
    var orig := ToolCallsOf(msg).value;
    var calls := orig;
    var stubbed := 0;
    for ci := 0 to |orig|
      invariant |calls| == |orig| && !Malformed(orig[..ci], aged)
      invariant forall i :: 0 <= i < |orig| ==> calls[i] == if i < ci && i < aged then StubCall(orig[i], prefix) else orig[i]
      invariant stubbed == FreshCount(orig[..ci], aged, prefix)
    {
      assert orig[..ci+1][..ci] == orig[..ci];
      if (mi, ci) !in flat {
        if AsObj(orig[ci]).None? {
          MalformedMeans(orig, aged);
          return None;
        }
        if Wanted(orig[ci], prefix) && !Stubbed(orig[ci]) {
          calls := calls[ci := StubCall(orig[ci], prefix)];
          stubbed := stubbed + 1;
        }
      }
    }
    assert orig[..|orig|] == orig;
    assert calls == StubCalls(orig, aged, prefix);
    return Some((WithCalls(msg, calls), stubbed));
  }

  /** The scan that decides whether a message is rewritten at all. */
  method AnyAgedWanted(calls: seq<Json>, mi: int, flat: seq<(int, int)>, ghost aged: int, prefix: string) returns (need: bool)
    requires forall c :: 0 <= c < |calls| ==> ((mi, c) in flat <==> c >= aged)
    ensures need == NeedsStub(calls, aged, prefix)
  {
    need := false;
    for ci := 0 to |calls|
      invariant need == NeedsStub(calls[..ci], aged, prefix)
    {
      assert calls[..ci+1][..ci] == calls[..ci];
      if (mi, ci) !in flat && Wanted(calls[ci], prefix) {
        need := true;
      }
    }
    assert calls[..|calls|] == calls;
  }

  lemma {:induction false} NoNeedNoCount(calls: seq<Json>, aged: int, prefix: string)
    requires !NeedsStub(calls, aged, prefix)
    ensures FreshCount(calls, aged, prefix) == 0
  {
    if calls == [] {
    } else {
      NoNeedNoCount(calls[..|calls|-1], aged, prefix);
    }
  }

  /** Pass 2 on one message. */
  method RewriteMessage(msg: Json, mi: int, flat: seq<(int, int)>, ghost aged: int, prefix: string) returns (out: Json, n: nat)
    requires prefix != ""
    requires forall c :: 0 <= c < CallCount(msg) ==> ((mi, c) in flat <==> c >= aged)
    ensures out == StubMsg(msg, aged, prefix) && n == MsgCount(msg, aged, prefix)
  {
    var calls := ToolCallsOf(msg);
    if calls.None? {
      return msg, 0;
    }
    var need := AnyAgedWanted(calls.value, mi, flat, aged, prefix);
    if !need {
      NoNeedNoCount(calls.value, aged, prefix);
      return msg, 0;
    }
    var r := StubAgedCalls(msg, mi, flat, aged, prefix);
    if r.None? {
      return msg, 0;
    }
    return r.value.0, r.value.1;
  }

  lemma ProtectedHere(flat: seq<(int, int)>, msgs: seq<Json>, aged: int, mi: nat)
    requires Lists(flat, msgs, aged) && mi < |msgs|
    ensures forall c :: 0 <= c < CallCount(msgs[mi]) ==> ((mi, c) in flat <==> c >= aged - Before(msgs, mi))
  {
    forall c | 0 <= c < CallCount(msgs[mi]) ensures (mi, c) in flat <==> c >= aged - Before(msgs, mi) {
      assert (mi, c) in flat <==> AtOrAfter(msgs, mi, c, aged);
    }
  }

  /** One more message rewritten in place. */
  lemma RewriteStep(f: Rewrite, g: (Json, int) -> nat, msgs: seq<Json>, aged: int, mi: nat)
    requires mi < |msgs|
    ensures var result := Rewritten(f, msgs, aged, mi) + msgs[mi..];
            var here := aged - Before(msgs, mi);
            && result[mi] == msgs[mi]
            && result[mi := f(msgs[mi], here)] == Rewritten(f, msgs, aged, mi + 1) + msgs[mi+1..]
            && Counted(g, msgs, aged, mi + 1) == Counted(g, msgs, aged, mi) + g(msgs[mi], here)
  {
  }

  /** Pass 2: rewrite the messages in place, front to back. */
  method RewriteAll(msgs: seq<Json>, flat: seq<(int, int)>, ghost aged: int, prefix: string)
    returns (result: seq<Json>, stubbed: nat)
    requires prefix != "" && Lists(flat, msgs, aged)
    ensures result == StubMsgs(msgs, aged, prefix) && stubbed == StubCount(msgs, aged, prefix)
  {
    result, stubbed := msgs, 0;
    ghost var f, g := Stubber(prefix), Counter(prefix);
    for mi := 0 to |msgs|
      invariant result == Rewritten(f, msgs, aged, mi) + msgs[mi..]
      invariant stubbed == Counted(g, msgs, aged, mi)
    {
      ProtectedHere(flat, msgs, aged, mi);
      RewriteStep(f, g, msgs, aged, mi);
      var next, n := RewriteMessage(result[mi], mi, flat, aged - Before(msgs, mi), prefix);
      result := result[mi := next];
      stubbed := stubbed + n;
    }
  }

  method Compact(body: Json, mentions: bool, window: int, prefix: string) returns (out: Json, stubbed: nat, changed: bool)
    ensures (out, stubbed) == Compacted(body, mentions, window, prefix)
    ensures changed == (stubbed > 0)
  {
    if window < 0 || prefix == "" || !mentions {
      return body, 0, false;
    }
    var top := AsObj(body);
    if top.None? || "messages" !in top.value {
      return body, 0, false;
    }
    var msgs := AsArr(top.value["messages"]);
    if msgs.None? {
      return body, 0, false;
    }
    var flat := FindProtected(msgs.value, window);
    var result, n := RewriteAll(msgs.value, flat, AgedCalls(Total(msgs.value), window), prefix);
    if n == 0 {
      return body, 0, false;
    }
    return Obj(top.value["messages" := Arr(result)]), n, true;
  }
}
