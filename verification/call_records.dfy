/**
 The calls of a run, told from its schedule: what the thread was asked to do in the step with
 which it stopped being idle, how long the history was then, and how long it was when the thread
 was idle again.
 */
module CallRecords {

  /** `asked` resolves what the program leaves open when a call begins; C is its type. */
  datatype Call<+C> = Running(asked: C, from: nat) | Ended(asked: C, from: nat, until: nat)

  function End<C>(calls: seq<Call<C>>, at: nat): seq<Call<C>>
    requires calls != []
  {
    var k := |calls| - 1;
    calls[k := Ended(calls[k].asked, calls[k].from, at)]
  }

  /** Add a step of thread t, given whether the thread is idle and how long the history is before
      and after it: the step begins a call, or ends the latest one, or neither. */
  function Followed<C>(calls: seq<seq<Call<C>>>, t: nat, asked: C, idle: bool, at: nat, idle': bool, at': nat):
      seq<seq<Call<C>>>
  {
    if t < |calls| && idle && !idle' then calls[t := calls[t] + [Running(asked, at)]]
    else if t < |calls| && !idle && idle' && calls[t] != [] then calls[t := End(calls[t], at')]
    else calls
  }

  /** The n-th call of thread t, counted from 1, is on record at n - 1. */
  predicate Known<C>(calls: seq<seq<Call<C>>>, t: nat, call: nat) {
    t < |calls| && 1 <= call <= |calls[t]|
  }

  /** A call may be added, and one that runs may end. */
  ghost predicate Extends<C>(before: seq<Call<C>>, after: seq<Call<C>>) {
    && |before| <= |after|
    && forall k {:trigger before[k]} {:trigger after[k]} :: 0 <= k < |before| ==>
         after[k] == before[k]
         || (before[k].Running? && after[k].asked == before[k].asked && after[k].from == before[k].from)
  }

  /** At most one element is added. */
  ghost predicate Grows<T>(before: seq<T>, after: seq<T>) {
    |before| <= |after| <= |before| + 1 && after[..|before|] == before
  }
}
