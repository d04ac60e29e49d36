/** ActionSequenceQueue: the explorer's stack of action sequences still to run. */
module ActionQueue {
  import opened Wrappers
  import opened Actions
  import opened Seqs

  datatype QueueError = NoSuchElement

  /** A last-in first-out deque; `sequences` lists the entries from the top (the latest
      push) down, which is also the order in which iteration visits them. */
  class ActionSequenceQueue {
    var sequences: seq<ActionSequence>

    constructor ()
      ensures sequences == []
    {
      sequences := [];
    }

    /** Pushes the given sequences in order, so the last of them ends up on top. */
    constructor FromSequences(allSequences: seq<ActionSequence>)
      ensures sequences == Reverse(allSequences)
    {
      sequences := [];
      new;
      for i := 0 to |allSequences|
        invariant sequences == Reverse(allSequences[..i])
      {
        assert allSequences[..i + 1][..i] == allSequences[..i];
        Push(allSequences[i]);
      }
      assert allSequences[..|allSequences|] == allSequences;
    }

    method IsEmpty() returns (r: bool)
      ensures r <==> |sequences| == 0
    {
      return |sequences| == 0;
    }

    method Size() returns (n: nat)
      ensures n == |sequences|
    {
      return |sequences|;
    }

    /** Removes and returns the top entry; an empty deque throws. */
    method Pop() returns (r: Result<ActionSequence, QueueError>)
      modifies this
      ensures old(sequences) == [] ==> r == Failure(NoSuchElement) && sequences == old(sequences)
      ensures old(sequences) != [] ==> r == Success(old(sequences)[0]) && sequences == old(sequences)[1..]
    {
      if |sequences| == 0 {
        return Failure(NoSuchElement);
      }
      r := Success(sequences[0]);
      sequences := sequences[1..];
    }

    method Push(sequence: ActionSequence)
      modifies this
      ensures sequences == [sequence] + old(sequences)
    {
      sequences := [sequence] + sequences;
    }

    /** The entries in iteration order: top first. */
    method Iterator() returns (r: seq<ActionSequence>)
      ensures |r| == |sequences|
      ensures forall i :: 0 <= i < |r| ==> r[i] == sequences[i]
    {
      return sequences;
    }
  }

  /** A push followed by a pop hands back the pushed sequence and restores the deque. */
  method PushThenPop(q: ActionSequenceQueue, s: ActionSequence) returns (popped: Result<ActionSequence, QueueError>)
    modifies q
    ensures popped == Success(s)
    ensures q.sequences == old(q.sequences)
  {
    q.Push(s);
    popped := q.Pop();
  }

  /** Building a deque from a list and popping it empty yields the list backwards. */
  method DrainAfterBuild(all: seq<ActionSequence>) returns (popped: seq<ActionSequence>)
    ensures popped == Reverse(all)
  {
    var q := new ActionSequenceQueue.FromSequences(all);
    popped := [];
    var empty := q.IsEmpty();
    while !empty
      invariant popped + q.sequences == Reverse(all)
      invariant empty <==> |q.sequences| == 0
      decreases |q.sequences|
    {
      var top := q.Pop();
      popped := popped + [top.value];
      empty := q.IsEmpty();
    }
  }
}
