/** The double-ended queue shared between threads. Every operation holds the queue's mutex from
    beginning to end, so each is one atomic step on the sequence of its elements. */
module TsQueues {

  class TsQueue<T> {
    var deqQueue: seq<T>

    constructor ()
      ensures deqQueue == []
    {
      deqQueue := [];
    }

    method Front() returns (t: T)
      requires deqQueue != []
      ensures t == deqQueue[0]
    {
      t := deqQueue[0];
    }

    method PopFront() returns (t: T)
      requires deqQueue != []
      modifies this
      ensures [t] + deqQueue == old(deqQueue)
    {
      t := deqQueue[0];
      deqQueue := deqQueue[1..];
    }

    method PushBack(item: T)
      modifies this
      ensures deqQueue == old(deqQueue) + [item]
    {
      deqQueue := deqQueue + [item];
    }

    method Empty() returns (b: bool)
      ensures b <==> deqQueue == []
    {
      b := deqQueue == [];
    }
  }
}
