/** The replay script's mirror of the transform: one flat list of calls, rewritten in place. */
module CompactionReference {
  import opened Compaction
  import opened CompactionLaws

  /** What the script makes of a message: entries that are not objects are passed over. */
  function ReferenceMsg(msg: Json, aged: int, prefix: string): Json
    requires prefix != ""
  {
    if msg.Obj? && "tool_calls" in msg.fields && msg.fields["tool_calls"].Arr?
    then WithCalls(msg, StubCalls(msg.fields["tool_calls"].items, aged, prefix)) else msg
  }

  function Referee(prefix: string): Rewrite
    requires prefix != ""
  {
    (msg, aged) => ReferenceMsg(msg, aged, prefix)
  }

  function ReferenceMsgs(msgs: seq<Json>, aged: int, prefix: string): (r: seq<Json>)
    requires prefix != ""
    ensures |r| == |msgs|
  {
    Rewritten(Referee(prefix), msgs, aged, |msgs|)
  }

  /** Entry `k` of the flat list names the call at flattened position `k`. */
  predicate Names(msgs: seq<Json>, p: (int, int), k: int) {
    0 <= p.0 < |msgs| && 0 <= p.1 < CallCount(msgs[p.0]) && Before(msgs, p.0) + p.1 == k
  }

  method FlatList(msgs: seq<Json>) returns (flat: seq<(int, int)>)
    ensures |flat| == Total(msgs)
    ensures forall k :: 0 <= k < |flat| ==> Names(msgs, flat[k], k)
  {
    flat := [];
    for mi := 0 to |msgs|
      invariant |flat| == Before(msgs, mi)
      invariant forall k :: 0 <= k < |flat| ==> Names(msgs, flat[k], k)
    {
      for ci := 0 to CallCount(msgs[mi])
        invariant |flat| == Before(msgs, mi) + ci
        invariant forall k :: 0 <= k < |flat| ==> Names(msgs, flat[k], k)
      {
        flat := flat + [(mi, ci)];
      }
    }
  }

  // ---- one step of the in-place loop ----

  lemma AllAgedAlready(msg: Json, a: int, b: int, prefix: string)
    requires prefix != "" && ((CallCount(msg) <= a && CallCount(msg) <= b) || (a <= 0 && b <= 0))
    ensures ReferenceMsg(msg, a, prefix) == ReferenceMsg(msg, b, prefix)
  {
    if msg.Obj? && "tool_calls" in msg.fields && msg.fields["tool_calls"].Arr? {
      var calls := msg.fields["tool_calls"].items;
      assert StubCalls(calls, a, prefix) == StubCalls(calls, b, prefix);
    }
  }

  /** A message with a call has its calls in a real array. */
  lemma HasCalls(msg: Json)
    requires CallCount(msg) > 0
    ensures msg.Obj? && "tool_calls" in msg.fields && msg.fields["tool_calls"] == Arr(CallsOf(msg))
  {
  }

  /** A message with its call `c` stubbed. */
  function Restubbed(msg: Json, c: nat, prefix: string): Json
    requires prefix != "" && msg.Obj? && c < |CallsOf(msg)|
  {
    WithCalls(msg, CallsOf(msg)[c := StubCall(CallsOf(msg)[c], prefix)])
  }

  lemma OneMoreAged(msg: Json, c: nat, prefix: string)
    requires prefix != "" && c < CallCount(msg)
    ensures var before := ReferenceMsg(msg, c, prefix);
            && before.Obj? && CallCount(before) == |CallsOf(before)| == CallCount(msg)
            && ReferenceMsg(msg, c + 1, prefix) == Restubbed(before, c, prefix)
  {
    HasCalls(msg);
    var calls := CallsOf(msg);
    assert StubCalls(calls, c + 1, prefix) == StubCalls(calls, c, prefix)[c := StubCall(calls[c], prefix)];
    WithCallsTwice(msg, StubCalls(calls, c, prefix), StubCalls(calls, c + 1, prefix));
  }

  /** Moving the cut past position `k` changes only the message that holds it. */
  lemma CutMovesOneMessage(msgs: seq<Json>, m: nat, c: nat, prefix: string, i: nat)
    requires prefix != "" && i < |msgs| && i != m && m < |msgs| && c < CallCount(msgs[m])
    ensures var k := Before(msgs, m) + c;
            ReferenceMsgs(msgs, k + 1, prefix)[i] == ReferenceMsgs(msgs, k, prefix)[i]
  {
    var k := Before(msgs, m) + c;
    var f := Referee(prefix);
    RewrittenAt(f, msgs, k, |msgs|, i);
    RewrittenAt(f, msgs, k + 1, |msgs|, i);
    if i < m {
      BeforeStep(msgs, i, m);
    } else {
      BeforeStep(msgs, m, i);
    }
    AllAgedAlready(msgs[i], k - Before(msgs, i), k + 1 - Before(msgs, i), prefix);
  }

  lemma CutMoves(msgs: seq<Json>, m: nat, c: nat, prefix: string)
    requires prefix != "" && m < |msgs| && c < CallCount(msgs[m])
    ensures var k := Before(msgs, m) + c;
            var out := ReferenceMsgs(msgs, k, prefix);
            && out[m] == ReferenceMsg(msgs[m], c, prefix)
            && ReferenceMsgs(msgs, k + 1, prefix) == out[m := ReferenceMsg(msgs[m], c + 1, prefix)]
  {
    var k := Before(msgs, m) + c;
    var f := Referee(prefix);
    RewrittenAt(f, msgs, k, |msgs|, m);
    RewrittenAt(f, msgs, k + 1, |msgs|, m);
    forall i | 0 <= i < |msgs| && i != m
      ensures ReferenceMsgs(msgs, k + 1, prefix)[i] == ReferenceMsgs(msgs, k, prefix)[i]
    {
      CutMovesOneMessage(msgs, m, c, prefix, i);
    }
  }

  lemma NothingAged(msgs: seq<Json>, prefix: string)
    requires prefix != ""
    ensures ReferenceMsgs(msgs, 0, prefix) == msgs
  {
    forall i | 0 <= i < |msgs| ensures ReferenceMsgs(msgs, 0, prefix)[i] == msgs[i] {
      RewrittenAt(Referee(prefix), msgs, 0, |msgs|, i);
      if CallCount(msgs[i]) > 0 { HasCalls(msgs[i]); }
      assert StubCalls(CallsOf(msgs[i]), 0 - Before(msgs, i), prefix) == CallsOf(msgs[i]);
    }
  }

  /** One round of the script's loop, in terms of the messages as rewritten so far. */
  lemma RoundIsCut(msgs: seq<Json>, k: nat, m: nat, c: nat, prefix: string)
    requires prefix != "" && Names(msgs, (m, c), k)
    ensures var out := ReferenceMsgs(msgs, k, prefix);
            && out[m].Obj? && c < CallCount(out[m]) == |CallsOf(out[m])|
            && ReferenceMsgs(msgs, k + 1, prefix) == out[m := Restubbed(out[m], c, prefix)]
  {
    CutMoves(msgs, m, c, prefix);
    OneMoreAged(msgs[m], c, prefix);
  }

  /** One call of the script's rewriting loop. */
  method StubAt(out: seq<Json>, m: nat, c: nat, prefix: string) returns (next: seq<Json>)
    requires prefix != "" && m < |out| && c < CallCount(out[m]) && out[m].Obj? && c < |CallsOf(out[m])|
    ensures next == out[m := Restubbed(out[m], c, prefix)]
  {
    HasCalls(out[m]);
    var calls := out[m].fields["tool_calls"].items;
    var call := calls[c];
    if !Wanted(call, prefix) || Stubbed(call) {
      assert calls[c := call] == calls && WithCalls(out[m], calls) == out[m];
      return out;
    }
    return out[m := WithCalls(out[m], calls[c := StubCall(call, prefix)])];
  }

  /** The tail of the flat list holds exactly the entries from its first position on. */
  lemma RecentMeans(msgs: seq<Json>, flat: seq<(int, int)>, aged: nat, k: nat)
    requires aged <= |flat| && k < |flat|
    requires forall i :: 0 <= i < |flat| ==> Names(msgs, flat[i], i)
    ensures flat[k] in flat[aged..] <==> k >= aged
  {
    if k >= aged {
      assert flat[aged..][k-aged] == flat[k];
    }
  }

  method Reference(msgs: seq<Json>, window: int, prefix: string) returns (out: seq<Json>)
    requires prefix != ""
    ensures out == ReferenceMsgs(msgs, AgedCalls(Total(msgs), window), prefix)
  {
    var flat := FlatList(msgs);
    var recent := if window <= 0 then [] else if |flat| > window then flat[|flat|-window..] else flat;
    ghost var aged := AgedCalls(Total(msgs), window);
    assert recent == flat[aged..];
    out := msgs;
    NothingAged(msgs, prefix);
    for k := 0 to |flat|
      invariant out == ReferenceMsgs(msgs, if k < aged then k else aged, prefix)
    {
      RecentMeans(msgs, flat, aged, k);
      if flat[k] !in recent {
        RoundIsCut(msgs, k, flat[k].0, flat[k].1, prefix);
        out := StubAt(out, flat[k].0, flat[k].1, prefix);
      }
    }
  }

  // ---- agreement ----

  /** The script changes a message if and only if it has a fresh call. */
  lemma ReferenceChanges(msg: Json, aged: int, prefix: string)
    requires prefix != ""
    ensures ReferenceMsg(msg, aged, prefix) != msg <==> Fresh(CallsOf(msg), aged, prefix)
  {
    if msg.Obj? && "tool_calls" in msg.fields && msg.fields["tool_calls"].Arr? {
      StubCallsChange(CallsOf(msg), aged, prefix);
      WithCallsChange(msg, StubCalls(CallsOf(msg), aged, prefix));
    }
  }

  /** A message with a fresh call that the router leaves alone for a non-object among its aged entries. */
  predicate PassedOver(msg: Json, aged: int, prefix: string) {
    Malformed(CallsOf(msg), aged) && Fresh(CallsOf(msg), aged, prefix)
  }

  lemma AgreesAt(msg: Json, aged: int, prefix: string)
    requires prefix != ""
    ensures StubMsg(msg, aged, prefix) == ReferenceMsg(msg, aged, prefix) <==> !PassedOver(msg, aged, prefix)
  {
    ReferenceChanges(msg, aged, prefix);
    RewritesExactly(msg, aged, prefix);
  }

  predicate PassedOverAt(msgs: seq<Json>, aged: int, prefix: string, i: nat)
    requires i < |msgs|
  {
    PassedOver(msgs[i], AgedIn(msgs, aged, i), prefix)
  }

  /** Two rewritings of a history compared message by message. */
  lemma SameThere(f: Rewrite, h: Rewrite, msgs: seq<Json>, aged: int, i: nat, here: int)
    requires i < |msgs| && here == AgedIn(msgs, aged, i)
    ensures Rewritten(f, msgs, aged, |msgs|)[i] == Rewritten(h, msgs, aged, |msgs|)[i]
            <==> f(msgs[i], here) == h(msgs[i], here)
  {
    RewrittenThere(f, msgs, aged, i, Before(msgs, i));
    RewrittenThere(h, msgs, aged, i, Before(msgs, i));
  }

  lemma MadeAlike(msg: Json, aged: int, prefix: string)
    requires prefix != ""
    ensures Stubber(prefix)(msg, aged) == Referee(prefix)(msg, aged) <==> !PassedOver(msg, aged, prefix)
  {
    AgreesAt(msg, aged, prefix);
  }

  lemma AgreesThere(msgs: seq<Json>, aged: int, prefix: string, i: nat, here: int)
    requires prefix != "" && i < |msgs|
    requires StubMsgs(msgs, aged, prefix)[i] == ReferenceMsgs(msgs, aged, prefix)[i]
             <==> Stubber(prefix)(msgs[i], here) == Referee(prefix)(msgs[i], here)
    ensures StubMsgs(msgs, aged, prefix)[i] == ReferenceMsgs(msgs, aged, prefix)[i]
            <==> !PassedOver(msgs[i], here, prefix)
  {
    MadeAlike(msgs[i], here, prefix);
  }

  lemma AgreesAtIndex(msgs: seq<Json>, aged: int, prefix: string, i: nat)
    requires prefix != "" && i < |msgs|
    ensures StubMsgs(msgs, aged, prefix)[i] == ReferenceMsgs(msgs, aged, prefix)[i]
            <==> !PassedOverAt(msgs, aged, prefix, i)
  {
    var here := AgedIn(msgs, aged, i);
    SameThere(Stubber(prefix), Referee(prefix), msgs, aged, i, here);
    AgreesThere(msgs, aged, prefix, i, here);
  }

  /** Router and reference agree on a history exactly when no such message exists. */
  lemma AgreesWithReference(msgs: seq<Json>, aged: int, prefix: string)
    requires prefix != ""
    ensures StubMsgs(msgs, aged, prefix) == ReferenceMsgs(msgs, aged, prefix)
            <==> forall i :: 0 <= i < |msgs| ==> !PassedOverAt(msgs, aged, prefix, i)
  {
    forall i | 0 <= i < |msgs|
      ensures StubMsgs(msgs, aged, prefix)[i] == ReferenceMsgs(msgs, aged, prefix)[i]
              <==> !PassedOverAt(msgs, aged, prefix, i)
    {
      AgreesAtIndex(msgs, aged, prefix, i);
    }
  }
}
