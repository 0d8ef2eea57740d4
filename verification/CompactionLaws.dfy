/** What compaction means: exactness, the count, and re-sending a compacted history. */
module CompactionLaws {
  import opened Wrappers
  import opened Compaction
  import Positions

  // ---- only arguments change ----

  /** The arguments a call's function carries. */
  function Arguments(call: Json): Option<Json> {
    if call.Obj? && "function" in call.fields && call.fields["function"].Obj?
       && "arguments" in call.fields["function"].fields
    then Some(call.fields["function"].fields["arguments"]) else None
  }

  const NOTE := "{\"note\":\"arguments removed by relay aged-arg compaction (full text preserved in the session audit trail)\"}"

  /** Which calls are meant: objects whose function is an object whose name is a string with the prefix. */
  lemma WantedExactly(call: Json, prefix: string)
    requires prefix != ""
    ensures Wanted(call, prefix) <==>
              && call.Obj? && "function" in call.fields && call.fields["function"].Obj?
              && "name" in call.fields["function"].fields && call.fields["function"].fields["name"].Str?
              && prefix <= call.fields["function"].fields["name"].s
    ensures Wanted(call, prefix) ==> (Stubbed(call) <==> Arguments(call) == Some(Str(NOTE)))
  {
  }

  /** A call after the rewrite: the same, or with its function's arguments replaced by the note and nothing else. */
  lemma CallDiffersInArguments(call: Json, prefix: string)
    requires prefix != ""
    ensures var r := StubCall(call, prefix);
            if !Wanted(call, prefix) then r == call
            else && r.Obj? && call.Obj? && r.fields - {"function"} == call.fields - {"function"}
                 && r.fields["function"].Obj? && call.fields["function"].Obj?
                 && r.fields["function"].fields - {"arguments"} == call.fields["function"].fields - {"arguments"}
                 && Arguments(r) == Some(Str(NOTE))
  {
    if Wanted(call, prefix) {
      WantedShape(call, prefix);
    }
  }

  /** A message after the rewrite: the same fields but `tool_calls`, and in it the aged calls stubbed. */
  lemma MessageDiffersInCalls(msg: Json, aged: int, prefix: string)
    requires prefix != ""
    ensures var r := StubMsg(msg, aged, prefix);
            && CallCount(r) == CallCount(msg)
            && (r != msg ==>
                  && r.Obj? && msg.Obj? && r.fields - {"tool_calls"} == msg.fields - {"tool_calls"}
                  && ToolCallsOf(r) == Some(StubCalls(ToolCallsOf(msg).value, aged, prefix)))
  {
  }

  lemma {:induction false} SameBefore(a: seq<Json>, b: seq<Json>, i: nat)
    requires i <= |a| && i <= |b|
    requires forall k :: 0 <= k < i ==> CallCount(a[k]) == CallCount(b[k])
    ensures Before(a, i) == Before(b, i)
  {
    if i == 0 {
    } else {
      SameBefore(a, b, i - 1);
    }
  }

  lemma CallsUntouched(calls: seq<Json>, aged: int, prefix: string)
    requires prefix != "" && !NeedsStub(calls, aged, prefix)
    ensures StubCalls(calls, aged, prefix) == calls
  {
    NeedsStubMeans(calls, aged, prefix);
  }

  /** The calls of a rewritten message. */
  lemma MessageIsExact(msg: Json, aged: int, prefix: string)
    requires prefix != "" && ToolCallsOf(msg).Some?
    ensures var calls := ToolCallsOf(msg).value;
            ToolCallsOf(StubMsg(msg, aged, prefix)) ==
            Some(if Malformed(calls, aged) then calls else StubCalls(calls, aged, prefix))
  {
    var calls := ToolCallsOf(msg).value;
    if !NeedsStub(calls, aged, prefix) {
      CallsUntouched(calls, aged, prefix);
    }
  }

  /** Call `c` of `after` is that of `msg`, stubbed if it has aged and no aged entry is malformed. */
  predicate Fate(msg: Json, after: Json, aged: int, prefix: string, c: nat)
    requires prefix != ""
  {
    var calls, r := ToolCallsOf(msg), ToolCallsOf(after);
    && calls.Some? && r.Some? && c < |calls.value| == |r.value|
    && r.value[c] ==
       if c < aged && !Malformed(calls.value, aged) then StubCall(calls.value[c], prefix) else calls.value[c]
  }

  lemma CallIsExact(msg: Json, after: Json, aged: int, prefix: string, c: nat)
    requires prefix != "" && c < CallCount(msg) && after == StubMsg(msg, aged, prefix)
    ensures Fate(msg, after, aged, prefix, c)
  {
    MessageIsExact(msg, aged, prefix);
  }

  lemma MessageAt(msgs: seq<Json>, aged: int, prefix: string, m: nat)
    requires prefix != "" && m < |msgs|
    ensures |StubMsgs(msgs, aged, prefix)| == |msgs|
    ensures StubMsgs(msgs, aged, prefix)[m] == StubMsg(msgs[m], aged - Before(msgs, m), prefix)
  {
    RewrittenAt(Stubber(prefix), msgs, aged, |msgs|, m);
  }

  lemma HistoryIsExact(msgs: seq<Json>, aged: int, prefix: string, m: nat, c: nat)
    requires prefix != "" && m < |msgs| && c < CallCount(msgs[m])
    ensures |StubMsgs(msgs, aged, prefix)| == |msgs|
    ensures Fate(msgs[m], StubMsgs(msgs, aged, prefix)[m], aged - Before(msgs, m), prefix, c)
  {
    FateThere(msgs, aged, prefix, m, c, aged - Before(msgs, m));
  }

  lemma FateThere(msgs: seq<Json>, aged: int, prefix: string, m: nat, c: nat, here: int)
    requires prefix != "" && m < |msgs| && c < CallCount(msgs[m]) && here == aged - Before(msgs, m)
    ensures |StubMsgs(msgs, aged, prefix)| == |msgs| && Fate(msgs[m], StubMsgs(msgs, aged, prefix)[m], here, prefix, c)
  {
    MessageAt(msgs, aged, prefix, m);
    CallIsExact(msgs[m], StubMsgs(msgs, aged, prefix)[m], here, prefix, c);
  }

  /** The fate of every call of a history: protected, untouched or stubbed, by its flattened position. */
  lemma CompactionIsExact(msgs: seq<Json>, window: int, prefix: string, m: nat, c: nat)
    requires prefix != "" && m < |msgs| && c < CallCount(msgs[m])
    ensures var aged := AgedCalls(Total(msgs), window);
            && |StubMsgs(msgs, aged, prefix)| == |msgs|
            && Fate(msgs[m], StubMsgs(msgs, aged, prefix)[m], aged - Before(msgs, m), prefix, c)
  {
    HistoryIsExact(msgs, AgedCalls(Total(msgs), window), prefix, m, c);
  }

  // ---- the count ----

  /** Positions at which two lists of equal length differ. */
  function Differences(a: seq<Json>, b: seq<Json>): nat {
    if a == [] || b == [] then 0
    else Differences(a[..|a|-1], b[..|b|-1]) + if a[|a|-1] != b[|b|-1] then 1 else 0
  }

  lemma {:induction false} FreshCountIsDifferences(calls: seq<Json>, aged: int, prefix: string)
    requires prefix != ""
    ensures FreshCount(calls, aged, prefix) == Differences(calls, StubCalls(calls, aged, prefix))
  {
    if calls == [] {
    } else {
      var n := |calls| - 1;
      FreshCountIsDifferences(calls[..n], aged, prefix);
      StubCallKeeps(calls[n], prefix);
      assert StubCalls(calls[..n], aged, prefix) == StubCalls(calls, aged, prefix)[..n];
    }
  }

  function CallsOf(msg: Json): seq<Json> {
    var calls := ToolCallsOf(msg);
    if calls.None? then [] else calls.value
  }

  lemma {:induction false} NoDifferences(a: seq<Json>)
    ensures Differences(a, a) == 0
  {
    if a != [] { NoDifferences(a[..|a|-1]); }
  }

  lemma MsgCountIsDifferences(msg: Json, aged: int, prefix: string)
    requires prefix != ""
    ensures |CallsOf(msg)| == |CallsOf(StubMsg(msg, aged, prefix))|
    ensures MsgCount(msg, aged, prefix) == Differences(CallsOf(msg), CallsOf(StubMsg(msg, aged, prefix)))
  {
    if ToolCallsOf(msg).Some? {
      var calls := ToolCallsOf(msg).value;
      MessageIsExact(msg, aged, prefix);
      NoDifferences(calls);
      FreshCountIsDifferences(calls, aged, prefix);
    }
  }

  /** A measure of two messages, added up over two histories of the same length. */
  function Summed(d: (Json, Json) -> nat, a: seq<Json>, b: seq<Json>): nat {
    if a == [] || b == [] then 0 else Summed(d, a[..|a|-1], b[..|b|-1]) + d(a[|a|-1], b[|b|-1])
  }

  /** Calls that differ between two histories of the same shape. */
  function HistoryDifferences(a: seq<Json>, b: seq<Json>): nat {
    Summed(MessageDifferences, a, b)
  }

  function MessageDifferences(x: Json, y: Json): nat {
    Differences(CallsOf(x), CallsOf(y))
  }

  lemma SummedOneMore(d: (Json, Json) -> nat, a: seq<Json>, b: seq<Json>, x: Json, y: Json)
    ensures Summed(d, a + [x], b + [y]) == Summed(d, a, b) + d(x, y)
  {
    assert (a + [x])[..|a|] == a && (b + [y])[..|b|] == b;
  }

  /** One message more: both sides grow by what that message adds. */
  lemma OneMore(f: Rewrite, g: (Json, int) -> nat, d: (Json, Json) -> nat, msgs: seq<Json>, aged: int, n: nat, a: int)
    requires n < |msgs| && a == aged - Before(msgs, n) && g(msgs[n], a) == d(msgs[n], f(msgs[n], a))
    ensures Counted(g, msgs, aged, n + 1) - Counted(g, msgs, aged, n)
            == Summed(d, msgs[..n+1], Rewritten(f, msgs, aged, n + 1)) - Summed(d, msgs[..n], Rewritten(f, msgs, aged, n))
  {
    SummedOneMore(d, msgs[..n], Rewritten(f, msgs, aged, n), msgs[n], f(msgs[n], a));
    assert msgs[..n+1] == msgs[..n] + [msgs[n]];
  }

  lemma {:induction false} CountedIsSummed(f: Rewrite, g: (Json, int) -> nat, d: (Json, Json) -> nat,
                                           msgs: seq<Json>, aged: int, n: nat)
    requires n <= |msgs|
    requires forall m, a :: g(m, a) == d(m, f(m, a))
    ensures Counted(g, msgs, aged, n) == Summed(d, msgs[..n], Rewritten(f, msgs, aged, n))
  {
    if n == 0 {
    } else {
      CountedIsSummed(f, g, d, msgs, aged, n - 1);
      OneMore(f, g, d, msgs, aged, n - 1, aged - Before(msgs, n - 1));
    }
  }

  /** The reported number of stubbed calls is the number of calls that changed. */
  lemma StubCountIsDifferences(msgs: seq<Json>, aged: int, prefix: string)
    requires prefix != ""
    ensures StubCount(msgs, aged, prefix) == HistoryDifferences(msgs, StubMsgs(msgs, aged, prefix))
  {
    forall m, a ensures Counter(prefix)(m, a) == MessageDifferences(m, Stubber(prefix)(m, a)) {
      MsgCountIsDifferences(m, a, prefix);
    }
    CountedIsSummed(Stubber(prefix), Counter(prefix), MessageDifferences, msgs, aged, |msgs|);
    assert msgs[..|msgs|] == msgs;
  }

  // ---- compacting a history that was compacted before ----

  lemma StubCallsTwice(calls: seq<Json>, aged: int, later: int, prefix: string)
    requires prefix != "" && aged <= later
    ensures StubCalls(StubCalls(calls, aged, prefix), later, prefix) == StubCalls(calls, later, prefix)
  {
    var once := StubCalls(calls, aged, prefix);
    forall i | 0 <= i < |calls| ensures StubCalls(once, later, prefix)[i] == StubCalls(calls, later, prefix)[i] {
      StubCallKeeps(calls[i], prefix);
    }
  }

  /** Stubbing changes neither which calls are wanted nor which are malformed. */
  lemma StubCallsKeepTests(calls: seq<Json>, aged: int, later: int, prefix: string)
    requires prefix != ""
    ensures NeedsStub(StubCalls(calls, aged, prefix), later, prefix) == NeedsStub(calls, later, prefix)
    ensures Malformed(StubCalls(calls, aged, prefix), later) == Malformed(calls, later)
  {
    var r := StubCalls(calls, aged, prefix);
    NeedsStubMeans(r, later, prefix);
    NeedsStubMeans(calls, later, prefix);
    MalformedMeans(r, later);
    MalformedMeans(calls, later);
    forall i | 0 <= i < |calls|
      ensures Wanted(r[i], prefix) == Wanted(calls[i], prefix) && AsObj(r[i]).Some? == AsObj(calls[i]).Some?
    {
      StubCallKeeps(calls[i], prefix);
    }
  }

  // ---- what a rewrite changes, told from its input ----

  /** An aged call that carries the prefix and is not a stub yet. */
  predicate Fresh(calls: seq<Json>, aged: int, prefix: string) {
    exists i :: 0 <= i < |calls| && i < aged && Wanted(calls[i], prefix) && !Stubbed(calls[i])
  }

  /** A message the router changes: a fresh call, and objects only among the aged entries. */
  predicate Rewrites(msg: Json, aged: int, prefix: string) {
    !Malformed(CallsOf(msg), aged) && Fresh(CallsOf(msg), aged, prefix)
  }

  lemma {:induction false} NotFreshAt(calls: seq<Json>, aged: int, prefix: string, i: nat)
    requires prefix != "" && FreshCount(calls, aged, prefix) == 0 && i < |calls| && i < aged
    ensures Wanted(calls[i], prefix) ==> Stubbed(calls[i])
  {
    var n := |calls| - 1;
    if i == n {
    } else {
      NotFreshAt(calls[..n], aged, prefix, i);
    }
  }

  lemma {:induction false} SomeFresh(calls: seq<Json>, aged: int, prefix: string)
    requires FreshCount(calls, aged, prefix) > 0
    ensures Fresh(calls, aged, prefix)
  {
    var n := |calls| - 1;
    if n < aged && Wanted(calls[n], prefix) && !Stubbed(calls[n]) {
    } else {
      SomeFresh(calls[..n], aged, prefix);
      var i :| 0 <= i < n && i < aged && Wanted(calls[..n][i], prefix) && !Stubbed(calls[..n][i]);
      assert calls[i] == calls[..n][i];
    }
  }

  lemma FreshCountExactly(calls: seq<Json>, aged: int, prefix: string)
    requires prefix != ""
    ensures FreshCount(calls, aged, prefix) > 0 <==> Fresh(calls, aged, prefix)
  {
    if FreshCount(calls, aged, prefix) > 0 {
      SomeFresh(calls, aged, prefix);
    } else {
      forall i | 0 <= i < |calls| && i < aged ensures Wanted(calls[i], prefix) ==> Stubbed(calls[i]) {
        NotFreshAt(calls, aged, prefix, i);
      }
    }
  }

  lemma StubCallsChange(calls: seq<Json>, aged: int, prefix: string)
    requires prefix != ""
    ensures StubCalls(calls, aged, prefix) != calls <==> Fresh(calls, aged, prefix)
  {
    var r := StubCalls(calls, aged, prefix);
    forall i | 0 <= i < |calls|
      ensures r[i] != calls[i] <==> i < aged && Wanted(calls[i], prefix) && !Stubbed(calls[i])
    {
      StubCallKeeps(calls[i], prefix);
    }
  }

  lemma WithCallsChange(msg: Json, calls: seq<Json>)
    requires msg.Obj? && "tool_calls" in msg.fields
    ensures WithCalls(msg, calls) == msg <==> msg.fields["tool_calls"] == Arr(calls)
  {
    assert WithCalls(msg, calls).fields["tool_calls"] == Arr(calls);
  }

  /** A message is rewritten if and only if its calls say so. */
  lemma RewritesExactly(msg: Json, aged: int, prefix: string)
    requires prefix != ""
    ensures StubMsg(msg, aged, prefix) != msg <==> Rewrites(msg, aged, prefix)
  {
    var calls := CallsOf(msg);
    NeedsStubMeans(calls, aged, prefix);
    if NeedsStub(calls, aged, prefix) && !Malformed(calls, aged) {
      StubCallsChange(calls, aged, prefix);
      WithCallsChange(msg, StubCalls(calls, aged, prefix));
    }
  }

  /** An entry that is not an object ages after its message was already rewritten. */
  predicate LateMalformed(msg: Json, aged: int, later: int, prefix: string) {
    Rewrites(msg, aged, prefix) && Malformed(CallsOf(msg), later)
  }

  lemma RewrittenShape(msg: Json, aged: int, prefix: string)
    requires prefix != "" && StubMsg(msg, aged, prefix) != msg
    ensures var calls := CallsOf(msg);
            && ToolCallsOf(msg) == Some(calls) && msg.Obj?
            && NeedsStub(calls, aged, prefix) && !Malformed(calls, aged)
            && StubMsg(msg, aged, prefix) == WithCalls(msg, StubCalls(calls, aged, prefix))
  {
  }

  lemma WithCallsTwice(msg: Json, a: seq<Json>, b: seq<Json>)
    requires msg.Obj?
    ensures WithCalls(WithCalls(msg, a), b) == WithCalls(msg, b)
    ensures ToolCallsOf(WithCalls(msg, a)) == Some(a)
  {
  }

  lemma RestubExactly(msg: Json, aged: int, later: int, prefix: string)
    requires prefix != "" && aged <= later
    ensures StubMsg(StubMsg(msg, aged, prefix), later, prefix) == StubMsg(msg, later, prefix)
            <==> !LateMalformed(msg, aged, later, prefix)
  {
    RewritesExactly(msg, aged, prefix);
    if StubMsg(msg, aged, prefix) != msg {
      RewrittenShape(msg, aged, prefix);
      var calls := CallsOf(msg);
      var once := StubCalls(calls, aged, prefix);
      StubCallsKeepTests(calls, aged, later, prefix);
      StubCallsTwice(calls, aged, later, prefix);
      WithCallsTwice(msg, once, StubCalls(calls, later, prefix));
      NeedsStubMeans(calls, aged, prefix);
      NeedsStubMeans(calls, later, prefix);
    }
  }

  // ---- compacting again ----

  lemma {:induction false} SamePlaces(msgs: seq<Json>, i: nat)
    requires i <= |msgs|
    ensures Positions.Before(CallCount, msgs, i) == Before(msgs, i)
  {
    if i == 0 {
    } else {
      SamePlaces(msgs, i - 1);
    }
  }

  lemma RewrittenThere(f: Rewrite, msgs: seq<Json>, aged: int, i: nat, p: int)
    requires i < |msgs| && p == Before(msgs, i)
    ensures Rewritten(f, msgs, aged, |msgs|)[i] == f(msgs[i], aged - p)
  {
    RewrittenAt(f, msgs, aged, |msgs|, i);
  }

  lemma SameAt(f: Rewrite, msgs: seq<Json>, aged: int, i: nat, p: int)
    requires i < |msgs| && p == Before(msgs, i) && p == Positions.Before(CallCount, msgs, i)
    ensures Rewritten(f, msgs, aged, |msgs|)[i] == Positions.Rewritten(f, CallCount, msgs, aged)[i]
  {
    RewrittenThere(f, msgs, aged, i, p);
    Positions.At(f, CallCount, msgs, aged, i, p);
  }

  lemma SameRewriting(f: Rewrite, msgs: seq<Json>, aged: int)
    ensures Rewritten(f, msgs, aged, |msgs|) == Positions.Rewritten(f, CallCount, msgs, aged)
  {
    forall i | 0 <= i < |msgs|
      ensures Rewritten(f, msgs, aged, |msgs|)[i] == Positions.Rewritten(f, CallCount, msgs, aged)[i] {
      SamePlaces(msgs, i);
      SameAt(f, msgs, aged, i, Before(msgs, i));
    }
  }

  lemma StubberKeepsSizes(sent: seq<Json>, aged: int, prefix: string)
    requires prefix != ""
    ensures Positions.KeepsSizes(Stubber(prefix), CallCount, sent, aged)
  {
    var once := Positions.Rewritten(Stubber(prefix), CallCount, sent, aged);
    SameRewriting(Stubber(prefix), sent, aged);
    forall k | 0 <= k < |sent| ensures CallCount(once[k]) == CallCount(sent[k]) {
      MessageAt(sent, aged, prefix, k);
      MessageDiffersInCalls(sent[k], aged - Before(sent, k), prefix);
    }
  }

  /** Message `i` was rewritten, and a non-object entry of it ages later. */
  predicate LateMalformedAt(sent: seq<Json>, aged: int, later: int, prefix: string, i: nat)
    requires i < |sent|
  {
    LateMalformed(sent[i], AgedIn(sent, aged, i), AgedIn(sent, later, i), prefix)
  }

  /** How many of the first `aged` calls are left for message `i`. */
  function AgedIn(msgs: seq<Json>, aged: int, i: nat): int
    requires i <= |msgs|
  {
    aged - Before(msgs, i)
  }

  lemma RestubbedExactly(msg: Json, aged: int, later: int, prefix: string)
    requires prefix != "" && aged <= later
    ensures Positions.Settles(Stubber(prefix), msg, aged, later) <==> !LateMalformed(msg, aged, later, prefix)
  {
    RestubExactly(msg, aged, later, prefix);
  }

  lemma SettlesIn(f: Rewrite, sent: seq<Json>, aged: int, later: int, i: nat, p: int)
    requires i < |sent| && p == Before(sent, i) && p == Positions.Before(CallCount, sent, i)
    ensures Positions.SettlesAt(f, CallCount, sent, aged, later, i)
            <==> Positions.Settles(f, sent[i], AgedIn(sent, aged, i), AgedIn(sent, later, i))
  {
    Positions.SettlesThere(f, CallCount, sent, aged, later, i, p);
    assert AgedIn(sent, aged, i) == aged - p && AgedIn(sent, later, i) == later - p;
  }

  lemma SettlesAtExactly(sent: seq<Json>, aged: int, later: int, prefix: string, i: nat)
    requires prefix != "" && aged <= later && i < |sent|
    ensures Positions.SettlesAt(Stubber(prefix), CallCount, sent, aged, later, i)
            <==> !LateMalformedAt(sent, aged, later, prefix, i)
  {
    SamePlaces(sent, i);
    SettlesIn(Stubber(prefix), sent, aged, later, i, Before(sent, i));
    RestubbedExactly(sent[i], AgedIn(sent, aged, i), AgedIn(sent, later, i), prefix);
  }

  lemma StubbedTwiceExactly(sent: seq<Json>, more: seq<Json>, aged: int, later: int, prefix: string)
    requires prefix != ""
    ensures StubMsgs(StubMsgs(sent, aged, prefix) + more, later, prefix) == StubMsgs(sent + more, later, prefix)
            <==> forall i :: 0 <= i < |sent| ==> Positions.SettlesAt(Stubber(prefix), CallCount, sent, aged, later, i)
  {
    var f := Stubber(prefix);
    StubberKeepsSizes(sent, aged, prefix);
    SameRewriting(f, sent, aged);
    SameRewriting(f, StubMsgs(sent, aged, prefix) + more, later);
    SameRewriting(f, sent + more, later);
    Positions.TwiceExactly(f, CallCount, sent, more, aged, later);
  }

  /**
    Incremental compaction, exactly: compacting, appending messages and
    compacting again equals compacting the whole history once, if and only if
    no rewritten message has a non-object entry that ages later.
   */
  lemma IncrementalExactly(sent: seq<Json>, more: seq<Json>, aged: int, later: int, prefix: string)
    requires prefix != "" && aged <= later
    ensures StubMsgs(StubMsgs(sent, aged, prefix) + more, later, prefix) == StubMsgs(sent + more, later, prefix)
            <==> forall i :: 0 <= i < |sent| ==> !LateMalformedAt(sent, aged, later, prefix, i)
  {
    StubbedTwiceExactly(sent, more, aged, later, prefix);
    forall i | 0 <= i < |sent|
      ensures Positions.SettlesAt(Stubber(prefix), CallCount, sent, aged, later, i)
              <==> !LateMalformedAt(sent, aged, later, prefix, i)
    {
      SettlesAtExactly(sent, aged, later, prefix, i);
    }
  }

  // ---- whole bodies ----

  lemma ZeroCountUntouched(msg: Json, aged: int, prefix: string)
    requires prefix != "" && MsgCount(msg, aged, prefix) == 0
    ensures StubMsg(msg, aged, prefix) == msg
  {
    RewritesExactly(msg, aged, prefix);
    FreshCountExactly(CallsOf(msg), aged, prefix);
  }

  lemma {:induction false} ZeroUntouched(f: Rewrite, g: (Json, int) -> nat, msgs: seq<Json>, aged: int, n: nat)
    requires n <= |msgs| && Counted(g, msgs, aged, n) == 0
    requires forall m, a :: g(m, a) == 0 ==> f(m, a) == m
    ensures Rewritten(f, msgs, aged, n) == msgs[..n]
  {
    if n == 0 {
    } else {
      ZeroUntouched(f, g, msgs, aged, n - 1);
      assert msgs[..n] == msgs[..n-1] + [msgs[n-1]];
    }
  }

  lemma MsgCountExactly(msg: Json, aged: int, prefix: string)
    requires prefix != ""
    ensures MsgCount(msg, aged, prefix) > 0 <==> Rewrites(msg, aged, prefix)
  {
    FreshCountExactly(CallsOf(msg), aged, prefix);
  }

  lemma {:induction false} SomeCounted(g: (Json, int) -> nat, msgs: seq<Json>, aged: int, n: nat) returns (i: nat)
    requires n <= |msgs| && Counted(g, msgs, aged, n) > 0
    ensures i < n && g(msgs[i], AgedIn(msgs, aged, i)) > 0
  {
    if g(msgs[n-1], AgedIn(msgs, aged, n - 1)) > 0 {
      i := n - 1;
    } else {
      i := SomeCounted(g, msgs, aged, n - 1);
    }
  }

  lemma {:induction false} CountsAtLeast(g: (Json, int) -> nat, msgs: seq<Json>, aged: int, n: nat, i: nat)
    requires i < n <= |msgs|
    ensures Counted(g, msgs, aged, n) >= g(msgs[i], AgedIn(msgs, aged, i))
  {
    if i == n - 1 {
    } else {
      CountsAtLeast(g, msgs, aged, n - 1, i);
    }
  }

  /** Some message of the body has a fresh call outside the window and objects only among its aged entries. */
  predicate Stubs(body: Json, window: int, prefix: string) {
    && window >= 0 && prefix != "" && MessagesOf(body).Some?
    && var msgs := MessagesOf(body).value;
       exists m :: 0 <= m < |msgs| && RewritesAt(msgs, AgedCalls(Total(msgs), window), prefix, m)
  }

  predicate RewritesAt(msgs: seq<Json>, aged: int, prefix: string, m: nat)
    requires m < |msgs|
  {
    Rewrites(msgs[m], AgedIn(msgs, aged, m), prefix)
  }

  lemma StubCountExactly(msgs: seq<Json>, aged: int, prefix: string)
    requires prefix != ""
    ensures StubCount(msgs, aged, prefix) > 0 <==> exists m :: 0 <= m < |msgs| && RewritesAt(msgs, aged, prefix, m)
  {
    if StubCount(msgs, aged, prefix) > 0 {
      var i := SomeCounted(Counter(prefix), msgs, aged, |msgs|);
      MsgCountExactly(msgs[i], AgedIn(msgs, aged, i), prefix);
      assert RewritesAt(msgs, aged, prefix, i);
    }
    if m :| 0 <= m < |msgs| && RewritesAt(msgs, aged, prefix, m) {
      MsgCountExactly(msgs[m], AgedIn(msgs, aged, m), prefix);
      CountsAtLeast(Counter(prefix), msgs, aged, |msgs|, m);
    }
  }

  /** A pass that is not filtered out changes a body if and only if the body says so. */
  lemma StubsExactly(body: Json, window: int, prefix: string)
    ensures Compacted(body, true, window, prefix).1 > 0 <==> Stubs(body, window, prefix)
  {
    if window >= 0 && prefix != "" && MessagesOf(body).Some? {
      var msgs := MessagesOf(body).value;
      StubCountExactly(msgs, AgedCalls(Total(msgs), window), prefix);
    }
  }

  lemma NothingToStub(msgs: seq<Json>, aged: int, prefix: string)
    requires prefix != "" && StubCount(msgs, aged, prefix) == 0
    ensures StubMsgs(msgs, aged, prefix) == msgs
  {
    forall m, a | Counter(prefix)(m, a) == 0 ensures Stubber(prefix)(m, a) == m {
      ZeroCountUntouched(m, a, prefix);
    }
    ZeroUntouched(Stubber(prefix), Counter(prefix), msgs, aged, |msgs|);
    assert msgs[..|msgs|] == msgs;
  }

  /** A body of the shape clients send: an object with a messages array. */
  predicate Chat(body: Json) {
    body.Obj? && "messages" in body.fields && body.fields["messages"].Arr?
  }

  /** Compaction rewrites the messages and nothing else of a body. */
  lemma CompactedBody(body: Json, window: int, prefix: string)
    requires Chat(body) && window >= 0 && prefix != ""
    ensures var msgs := body.fields["messages"].items;
            var aged := AgedCalls(Total(msgs), window);
            Compacted(body, true, window, prefix) ==
            (WithMessages(body, StubMsgs(msgs, aged, prefix)), StubCount(msgs, aged, prefix))
  {
    var msgs := body.fields["messages"].items;
    var aged := AgedCalls(Total(msgs), window);
    if StubCount(msgs, aged, prefix) == 0 {
      NothingToStub(msgs, aged, prefix);
      assert WithMessages(body, msgs) == body;
    }
  }

  lemma SummedSelf(d: (Json, Json) -> nat, a: seq<Json>)
    requires forall m :: d(m, m) == 0
    ensures Summed(d, a, a) == 0
  {
    if a != [] { SummedSelf(d, a[..|a|-1]); }
  }

  lemma SelfSame(msgs: seq<Json>)
    ensures HistoryDifferences(msgs, msgs) == 0
  {
    forall m ensures MessageDifferences(m, m) == 0 { NoDifferences(CallsOf(m)); }
    SummedSelf(MessageDifferences, msgs);
  }

  /** No entry ages between two passes over one history. */
  lemma NothingAges(msgs: seq<Json>, aged: int, prefix: string, i: nat)
    requires prefix != "" && i < |msgs|
    ensures !LateMalformedAt(msgs, aged, aged, prefix, i)
  {
  }

  lemma StubbedOnce(msgs: seq<Json>, aged: int, prefix: string)
    requires prefix != ""
    ensures var once := StubMsgs(msgs, aged, prefix);
            StubMsgs(once, aged, prefix) == once && StubCount(once, aged, prefix) == 0
  {
    var once := StubMsgs(msgs, aged, prefix);
    forall i | 0 <= i < |msgs| ensures !LateMalformedAt(msgs, aged, aged, prefix, i) {
      NothingAges(msgs, aged, prefix, i);
    }
    IncrementalExactly(msgs, [], aged, aged, prefix);
    assert once + [] == once && msgs + [] == msgs;
    StubCountIsDifferences(once, aged, prefix);
    SelfSame(once);
  }

  lemma StubbingKeepsTotal(msgs: seq<Json>, aged: int, prefix: string)
    requires prefix != ""
    ensures Total(StubMsgs(msgs, aged, prefix)) == Total(msgs)
  {
    StubbingKeepsLongerTotal(msgs, [], aged, prefix);
    var once := StubMsgs(msgs, aged, prefix);
    assert once + [] == once && msgs + [] == msgs;
  }

  /** Idempotence: a second pass over any compacted body reports no change. */
  lemma CompactIsIdempotent(body: Json, window: int, prefix: string, mentions: bool)
    requires Chat(body) && window >= 0 && prefix != ""
    ensures var once := Compacted(body, true, window, prefix).0;
            Compacted(once, mentions, window, prefix) == (once, 0)
  {
    var msgs := body.fields["messages"].items;
    var aged := AgedCalls(Total(msgs), window);
    CompactedBody(body, window, prefix);
    var once := WithMessages(body, StubMsgs(msgs, aged, prefix));
    StubbingKeepsTotal(msgs, aged, prefix);
    StubbedOnce(msgs, aged, prefix);
    CompactedBody(once, window, prefix);
  }

  function Appended(body: Json, more: seq<Json>): Json
    requires Chat(body)
  {
    WithMessages(body, body.fields["messages"].items + more)
  }

  /** What one pass makes of a body whose messages are `msgs`. */
  lemma PassOver(body: Json, msgs: seq<Json>, window: int, prefix: string)
    requires body.Obj? && window >= 0 && prefix != ""
    ensures Compacted(WithMessages(body, msgs), true, window, prefix).0 ==
            WithMessages(body, StubMsgs(msgs, AgedCalls(Total(msgs), window), prefix))
  {
    CompactedBody(WithMessages(body, msgs), window, prefix);
    SameMessages(body, StubMsgs(msgs, AgedCalls(Total(msgs), window), prefix), msgs);
  }

  lemma StubbingKeepsPlaces(msgs: seq<Json>, more: seq<Json>, aged: int, prefix: string, i: nat)
    requires prefix != "" && i <= |msgs| + |more|
    ensures |StubMsgs(msgs, aged, prefix)| == |msgs|
    ensures Positions.Before(CallCount, StubMsgs(msgs, aged, prefix) + more, i)
            == Positions.Before(CallCount, msgs + more, i)
  {
    SameRewriting(Stubber(prefix), msgs, aged);
    StubberKeepsSizes(msgs, aged, prefix);
    Positions.PositionKept(Stubber(prefix), CallCount, msgs, more, aged, i);
  }

  lemma StubbingKeepsLongerTotal(msgs: seq<Json>, more: seq<Json>, aged: int, prefix: string)
    requires prefix != ""
    ensures Total(StubMsgs(msgs, aged, prefix) + more) == Total(msgs + more)
  {
    var n := |msgs| + |more|;
    StubbingKeepsPlaces(msgs, more, aged, prefix, n);
    SamePlaces(StubMsgs(msgs, aged, prefix) + more, n);
    SamePlaces(msgs + more, n);
  }

  /** Incremental compaction of whole bodies, with the router's own window. */
  lemma CompactIsIncremental(body: Json, more: seq<Json>, window: int, prefix: string)
    requires Chat(body) && window >= 0 && prefix != ""
    ensures var msgs := body.fields["messages"].items;
            var aged := AgedCalls(Total(msgs), window);
            var later := AgedCalls(Total(msgs + more), window);
            var once := Compacted(body, true, window, prefix).0;
            && Chat(once)
            && (Compacted(Appended(once, more), true, window, prefix).0
                == Compacted(Appended(body, more), true, window, prefix).0
                <==> forall i :: 0 <= i < |msgs| ==> !LateMalformedAt(msgs, aged, later, prefix, i))
  {
    var msgs := body.fields["messages"].items;
    var aged, later := AgedCalls(Total(msgs), window), AgedCalls(Total(msgs + more), window);
    var stubbed := StubMsgs(msgs, aged, prefix);
    var once := WithMessages(body, stubbed);
    assert Compacted(body, true, window, prefix).0 == once by { CompactedBody(body, window, prefix); }
    assert Appended(once, more) == WithMessages(body, stubbed + more);
    PassOver(body, stubbed + more, window, prefix);
    PassOver(body, msgs + more, window, prefix);
    StubbingKeepsLongerTotal(msgs, more, aged, prefix);
    TotalGrows(msgs, more);
    IncrementalExactly(msgs, more, aged, later, prefix);
    SameMessages(body, StubMsgs(stubbed + more, later, prefix), StubMsgs(msgs + more, later, prefix));
  }

  lemma SameMessages(body: Json, a: seq<Json>, b: seq<Json>)
    requires body.Obj?
    ensures WithMessages(body, a) == WithMessages(body, b) <==> a == b
    ensures forall c :: WithMessages(WithMessages(body, c), a) == WithMessages(body, a)
  {
    assert WithMessages(body, a).fields["messages"] == Arr(a);
    assert WithMessages(body, b).fields["messages"] == Arr(b);
  }

  lemma TotalGrows(msgs: seq<Json>, more: seq<Json>)
    ensures Total(msgs) <= Total(msgs + more)
  {
    SameBefore(msgs, msgs + more, |msgs|);
    BeforeStep(msgs + more, |msgs|, |msgs| + |more|);
  }

  /** The exception is real: a number after a stubbed call, once it ages too. */
  lemma LateMalformedHappens(prefix: string)
    requires prefix != ""
    ensures var call := Obj(map["function" := Obj(map["name" := Str(prefix)])]);
            LateMalformed(Obj(map["tool_calls" := Arr([call, Num("1")])]), 1, 2, prefix)
  {
    var call := Obj(map["function" := Obj(map["name" := Str(prefix)])]);
    var calls := [call, Num("1")];
    var msg := Obj(map["tool_calls" := Arr(calls)]);
    assert ToolCallsOf(msg) == Some(calls) && ToolCallName(call) == Some(prefix);
    MalformedMeans(calls, 1);
    MalformedMeans(calls, 2);
    assert Wanted(calls[0], prefix) && !Stubbed(calls[0]) && AsObj(calls[1]).None?;
  }
}
