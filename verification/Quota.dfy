/**
  The per-workspace sliding-window quota: minute buckets that are pruned,
  summed, incremented and appended to under one lock.  Times are nanoseconds.
 */
module Quota {

  const MINUTE := 60_000_000_000
  const UNLIMITED := 0x4000_0000_0000_0000

  datatype Bucket = Bucket(start: int, requests: int, bytes: int)

  type Counters = map<string, seq<Bucket>>

  function CountersOf(m: Counters, ws: string): seq<Bucket> {
    if ws in m then m[ws] else []
  }

  /** The buckets that started after `cutoff`, in order. */
  function Live(bs: seq<Bucket>, cutoff: int): seq<Bucket> {
    if bs == [] then []
    else
      var n := |bs| - 1;
      if bs[n].start > cutoff then Live(bs[..n], cutoff) + [bs[n]] else Live(bs[..n], cutoff)
  }

  function Requests(bs: seq<Bucket>): int {
    if bs == [] then 0 else Requests(bs[..|bs|-1]) + bs[|bs|-1].requests
  }

  function Bytes(bs: seq<Bucket>): int {
    if bs == [] then 0 else Bytes(bs[..|bs|-1]) + bs[|bs|-1].bytes
  }

  /** The bucket a record made at `now` goes into. */
  function StartFor(bs: seq<Bucket>, now: int): int {
    if bs != [] && now - bs[|bs|-1].start < MINUTE then bs[|bs|-1].start else now
  }

  function Added(bs: seq<Bucket>, now: int, requests: int, bytes: int): seq<Bucket> {
    if bs != [] && now - bs[|bs|-1].start < MINUTE then
      var b := bs[|bs|-1];
      bs[|bs|-1 := Bucket(b.start, b.requests + requests, b.bytes + bytes)]
    else bs + [Bucket(now, requests, bytes)]
  }

  class WorkspaceQuota {
    const window: int
    const maxRequests: int
    const maxBytes: int
    var workspaces: Counters

    constructor (window: int, maxRequests: int, maxBytes: int)
      ensures this.window == window && this.maxRequests == maxRequests && this.maxBytes == maxBytes
      ensures workspaces == map[]
    {
      this.window := window;
      this.maxRequests := maxRequests;
      this.maxBytes := maxBytes;
      workspaces := map[];
    }

    method Prune(bs: seq<Bucket>, now: int) returns (live: seq<Bucket>)
      ensures live == Live(bs, now - window)
    {
      live := [];
      for i := 0 to |bs|
        invariant live == Live(bs[..i], now - window)
      {
        assert bs[..i+1][..i] == bs[..i];
        if bs[i].start > now - window {
          live := live + [bs[i]];
        }
      }
      assert bs[..|bs|] == bs;
    }

    /** `read` is the clock as pruning finds it, `add` as counting does. */
    method Admit(ws: string, read: int, add: int) returns (ok: bool)
      modifies this
      ensures maxRequests <= 0 ==> ok && workspaces == old(workspaces)
      ensures maxRequests > 0 ==>
                var live := Live(CountersOf(old(workspaces), ws), read - window);
                && ok == (Requests(live) < maxRequests)
                && workspaces == old(workspaces)[ws := if ok then Added(live, add, 1, 0) else live]
    {
      if maxRequests <= 0 {
        return true;
      }
      var live := Prune(CountersOf(workspaces, ws), read);
      var requests := 0;
      for i := 0 to |live|
        invariant requests == Requests(live[..i])
      {
        assert live[..i+1][..i] == live[..i];
        requests := requests + live[i].requests;
      }
      assert live[..|live|] == live;
      if requests >= maxRequests {
        workspaces := workspaces[ws := live];
        return false;
      }
      workspaces := workspaces[ws := Added(live, add, 1, 0)];
      return true;
    }

    method RecordBytes(ws: string, bytes: int, read: int, add: int)
      modifies this
      ensures workspaces ==
              old(workspaces)[ws := Added(Live(CountersOf(old(workspaces), ws), read - window), add, 0, bytes)]
    {
      var live := Prune(CountersOf(workspaces, ws), read);
      workspaces := workspaces[ws := Added(live, add, 0, bytes)];
    }

    method BytesLeft(ws: string, read: int) returns (left: int)
      modifies this
      ensures maxBytes <= 0 ==> left == 4_611_686_018_427_387_904 && workspaces == old(workspaces)
      ensures maxBytes > 0 ==>
                var live := Live(CountersOf(old(workspaces), ws), read - window);
                && workspaces == old(workspaces)[ws := live]
                && left == if Bytes(live) >= maxBytes then 0 else maxBytes - Bytes(live)
    {
      if maxBytes <= 0 {
        return UNLIMITED;
      }
      var live := Prune(CountersOf(workspaces, ws), read);
      var used := 0;
      for i := 0 to |live|
        invariant used == Bytes(live[..i])
      {
        assert live[..i+1][..i] == live[..i];
        used := used + live[i].bytes;
      }
      assert live[..|live|] == live;
      workspaces := workspaces[ws := live];
      if used >= maxBytes {
        return 0;
      }
      return maxBytes - used;
    }
  }
}
