/**
 * One terminal Build Status frame per build: the bounded, insertion-ordered memory of builds
 * that have had theirs, and which frames it lets through over any sequence of notify calls.
 */
module TerminalFrames {
  import JsText
  import opened Wrappers

  const MEMORY := 1000

  /** One notify call; deliverable says that the notifiers carry a messenger and an owner, and
      build is the build id when it is a string. */
  datatype Call = Call(message: Option<string>, success: bool, deliverable: bool, build: Option<string>)

  function StatusOf(c: Call): string
    requires c.message.Some?
  {
    if JsText.Contains(c.message.value, "build_running") then "info" else if c.success then "success" else "error"
  }

  predicate Sendable(c: Call) { c.message.Some? && c.deliverable }

  /** An error frame or Completed ends a build. */
  predicate Terminal(c: Call)
    requires c.message.Some?
  {
    StatusOf(c) == "error" || c.message.value == "Completed"
  }

  /** The call asks for a terminal frame of a build the memory can know. */
  predicate Remembered(c: Call) { Sendable(c) && Terminal(c) && c.build.Some? }

  function Trim(ids: seq<string>): seq<string> {
    if |ids| > MEMORY then Trim(ids[1..]) else ids
  }

  function Step(ids: seq<string>, c: Call): seq<string> {
    if Remembered(c) && c.build.value !in ids then Trim(ids + [c.build.value]) else ids
  }

  /** Whether the call's frame goes out. */
  predicate Sent(ids: seq<string>, c: Call) {
    Sendable(c) && !(Remembered(c) && c.build.value in ids)
  }

  function After(ids: seq<string>, calls: seq<Call>): seq<string> {
    if calls == [] then ids else
      var n := |calls| - 1;
      Step(After(ids, calls[..n]), calls[n])
  }

  /** The builds whose terminal frame was sent, in order. */
  function Ended(calls: seq<Call>): seq<string> {
    if calls == [] then [] else
      var n := |calls| - 1;
      Ended(calls[..n]) +
        if Remembered(calls[n]) && Sent(After([], calls[..n]), calls[n]) then [calls[n].build.value] else []
  }

  class Memory {
    var ids: seq<string>

    constructor ()
      ensures ids == []
    {
      ids := [];
    }

    method TerminalFrameSent(build: string) returns (seen: bool)
      modifies this
      ensures seen == (build in old(ids))
      ensures ids == if build in old(ids) then old(ids) else Trim(old(ids) + [build])
    {
      if build in ids {
        return true;
      }
      ids := ids + [build];
      while |ids| > MEMORY
        invariant Trim(ids) == Trim(old(ids) + [build])
      {
        ids := ids[1..];
      }
      return false;
    }

    method Notify(c: Call) returns (sent: bool)
      modifies this
      ensures ids == Step(old(ids), c) && sent == Sent(old(ids), c)
    {
      if c.message == None {
        return false;
      }
      var status := if c.success then "success" else "error";
      if JsText.Contains(c.message.value, "build_running") {
        status := "info";
      }
      if !c.deliverable {
        return false;
      }
      var terminal := status == "error" || c.message.value == "Completed";
      if terminal && c.build.Some? {
        var seen := TerminalFrameSent(c.build.value);
        if seen {
          return false;
        }
      }
      return true;
    }
  }

  // ---------------------------------------------------------------- over any sequence of calls

  function Latest(s: seq<string>, n: nat): seq<string> {
    if |s| <= n then s else s[|s| - n..]
  }

  ghost predicate Distinct(s: seq<string>) {
    forall i, j :: 0 <= i < j < |s| ==> s[i] != s[j]
  }

  lemma TrimIsLatest(ids: seq<string>)
    ensures Trim(ids) == Latest(ids, MEMORY)
    decreases |ids|
  {
    if |ids| > MEMORY {
      TrimIsLatest(ids[1..]);
    }
  }

  /** The memory is the last thousand builds that ended, each once. */
  lemma {:induction false} MemoryIsLatestEnded(calls: seq<Call>)
    ensures After([], calls) == Latest(Ended(calls), 1000)
    ensures |After([], calls)| <= 1000 && Distinct(After([], calls))
  {
    if calls != [] {
      var n := |calls| - 1;
      MemoryIsLatestEnded(calls[..n]);
      var ids, ended, c := After([], calls[..n]), Ended(calls[..n]), calls[n];
      if Remembered(c) && c.build.value !in ids {
        TrimIsLatest(ids + [c.build.value]);
        assert Latest(ids + [c.build.value], MEMORY) == Latest(ended + [c.build.value], MEMORY);
      }
    }
  }

  /** The call ends a build with an id: its message is Completed, or it is no success and its message
      nowhere says build_running. */
  predicate EndsBuild(c: Call) {
    && c.message.Some? && c.deliverable && c.build.Some?
    && (c.message.value == "Completed"
        || (!c.success && forall i :: 0 <= i <= |c.message.value| ==> !("build_running" <= c.message.value[i..])))
  }

  lemma EndsBuildIff(c: Call)
    ensures EndsBuild(c) <==> Remembered(c)
  {
    if c.message.Some? {
      JsText.ContainsIff(c.message.value, "build_running");
    }
  }

  /** Main result: a frame that has a message and somewhere to go is suppressed exactly when it ends a
      build among the last thousand that ended; a call without either sends none. */
  lemma SuppressedIffRecent(calls: seq<Call>, c: Call)
    ensures Sent(After([], calls), c) <==>
      c.message.Some? && c.deliverable && !(EndsBuild(c) && c.build.value in Latest(Ended(calls), 1000))
    ensures |Ended(calls)| <= 1000 && c.message.Some? && c.deliverable ==>
      (!Sent(After([], calls), c) <==> EndsBuild(c) && c.build.value in Ended(calls))
  {
    EndsBuildIff(c);
    MemoryIsLatestEnded(calls);
  }

  /** The builds that end are those of the calls that end one and are sent, in order. */
  lemma EndedGrows(calls: seq<Call>, c: Call)
    ensures Ended(calls + [c]) == Ended(calls) +
            if EndsBuild(c) && c.build.value !in Latest(Ended(calls), 1000) then [c.build.value] else []
  {
    assert (calls + [c])[..|calls|] == calls;
    EndsBuildIff(c);
    MemoryIsLatestEnded(calls);
  }

  lemma InLatest(s: seq<string>, n: nat, i: nat)
    requires |s| - n <= i < |s|
    ensures s[i] in Latest(s, n)
  {
    var latest := Latest(s, n);
    assert latest[i - (|s| - |latest|)] == s[i];
  }

  /** Between two terminal frames of one build at least a thousand other builds have ended. */
  lemma {:induction false} RepeatsAreFarApart(calls: seq<Call>, i: nat, j: nat)
    requires i < j < |Ended(calls)| && Ended(calls)[i] == Ended(calls)[j]
    ensures j - i > 1000
    decreases |calls|
  {
    var n := |calls| - 1;
    var before := Ended(calls[..n]);
    MemoryIsLatestEnded(calls[..n]);
    if j < |before| {
      RepeatsAreFarApart(calls[..n], i, j);
    } else if j - i <= MEMORY {
      InLatest(before, MEMORY, i);
    }
  }
}
