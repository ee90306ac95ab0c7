/** The loop of the response thread, run on the real queue while other threads push. */
module NetInterfaces {
  import opened Peers
  import opened TsQueues

  newtype UInt8 = x: int | 0 <= x < 256

  /** What the other threads push just before the thread's queue operations `start` to `end` - 1. */
  function Arrived(others: nat -> seq<Owned>, start: nat, end: nat): seq<Owned>
    decreases end
  {
    if end <= start then [] else Arrived(others, start, end - 1) + others(end - 1)
  }

  lemma {:induction false} ArrivedSplit(others: nat -> seq<Owned>, start: nat, mid: nat, end: nat)
    requires start <= mid <= end
    ensures Arrived(others, start, end) == Arrived(others, start, mid) + Arrived(others, mid, end)
    decreases end
  {
    if mid < end {
      ArrivedSplit(others, start, mid, end - 1);
    }
  }

  /** The other threads take their turn. */
  method Interfere(q: TsQueue<Owned>, items: seq<Owned>)
    modifies q
    ensures q.deqQueue == old(q.deqQueue) + items
  {
    var i := 0;
    while i < |items|
      invariant 0 <= i <= |items|
      invariant q.deqQueue == old(q.deqQueue) + items[..i]
    {
      assert items[..i + 1] == items[..i] + [items[i]];
      q.PushBack(items[i]);
      i := i + 1;
    }
    assert items[..i] == items;
  }

  /** The other threads take the turn before queue operation `ops`: the account of what came in
      since operation `start` and of what was taken out stays balanced. */
  method Turn(q: TsQueue<Owned>, others: nat -> seq<Owned>, ghost start: nat, ops: nat,
              ghost queued: seq<Owned>, ghost taken: seq<Owned>)
    returns (ops': nat)
    requires start <= ops && taken + q.deqQueue == queued + Arrived(others, start, ops)
    modifies q
    ensures ops' == ops + 1
    ensures taken + q.deqQueue == queued + Arrived(others, start, ops')
    ensures old(q.deqQueue) <= q.deqQueue
  {
    ghost var before, arrived := q.deqQueue, Arrived(others, start, ops);
    Interfere(q, others(ops));
    ops' := ops + 1;
    assert taken + (before + others(ops)) == taken + before + others(ops);
    assert queued + (arrived + others(ops)) == queued + arrived + others(ops);
  }

  /** The inner loop of `update`: one round of at most `maxMessages` pops. `ops` counts the queue
      operations done so far. Although other threads run between the test for emptiness and the
      pop, the pop never meets an empty queue, and the counter never overflows. The round ends
      early only when the queue was seen empty. */
  method Round(q: TsQueue<Owned>, maxMessages: UInt8, others: nat -> seq<Owned>, ops: nat)
    returns (dispatched: seq<Owned>, ops': nat)
    modifies q
    ensures ops <= ops' && (maxMessages > 0 ==> ops < ops')
    ensures dispatched + q.deqQueue == old(q.deqQueue) + Arrived(others, ops, ops')
    ensures |dispatched| <= maxMessages as int
    ensures |dispatched| < maxMessages as int ==> q.deqQueue == []
  {
    dispatched := [];
    ops' := ops;
    var msgCount: UInt8 := 0;
    while msgCount < maxMessages
      invariant msgCount as int == |dispatched| && msgCount <= maxMessages
      invariant ops <= ops' && (msgCount > 0 ==> ops < ops')
      invariant dispatched + q.deqQueue == old(q.deqQueue) + Arrived(others, ops, ops')
      decreases maxMessages - msgCount
    {
      ops' := Turn(q, others, ops, ops', old(q.deqQueue), dispatched);
      var empty := q.Empty();
      if empty {
        break;
      }
      ops' := Turn(q, others, ops, ops', old(q.deqQueue), dispatched);
      ghost var queued := q.deqQueue;
      var msg := q.PopFront();
      assert dispatched + queued == dispatched + [msg] + q.deqQueue;
      dispatched := dispatched + [msg];
      msgCount := msgCount + 1;
    }
  }

  lemma Regroup<T>(d: seq<T>, m: seq<T>, q': seq<T>, q: seq<T>, q0: seq<T>, a: seq<T>, b: seq<T>)
    requires d + q == q0 + a && m + q' == q + b
    ensures d + m + q' == q0 + (a + b)
  {
    calc {
      d + m + q';
      d + (m + q');
      d + (q + b);
      d + q + b;
      q0 + a + b;
      q0 + (a + b);
    }
  }

  /** How far the thread has come: queue operations done and messages dispatched. */
  datatype Mark = Mark(ops: nat, count: nat)

  /** Between two marks lies a whole round: it made at least one queue operation, it dispatched at
      most `maxMessages`, and if fewer it caught up with everything that had come in until then. */
  predicate WholeRound(before: Mark, after: Mark, maxMessages: UInt8, queued: nat, others: nat -> seq<Owned>) {
    && before.ops <= after.ops && (maxMessages > 0 ==> before.ops < after.ops)
    && before.count <= after.count <= before.count + maxMessages as int
    && (after.count < before.count + maxMessages as int ==> after.count == queued + |Arrived(others, 0, after.ops)|)
  }

  /** The marks of `rounds` whole rounds, one after the other. */
  predicate WholeRounds(marks: seq<Mark>, rounds: nat, maxMessages: UInt8, queued: nat, others: nat -> seq<Owned>) {
    && |marks| == rounds + 1 && marks[0] == Mark(0, 0)
    && forall k :: 0 <= k < rounds ==> WholeRound(marks[k], marks[k + 1], maxMessages, queued, others)
  }

  /** However many rounds there are: unless every one of them was full, all that was queued in the
      beginning has been dispatched. */
  lemma {:induction false} WholeRoundsDispatch(marks: seq<Mark>, rounds: nat, maxMessages: UInt8, queued: nat,
                                               others: nat -> seq<Owned>)
    requires WholeRounds(marks, rounds, maxMessages, queued, others)
    ensures marks[rounds].count <= rounds * maxMessages as int
    ensures marks[rounds].count < rounds * maxMessages as int ==> queued <= marks[rounds].count
    ensures maxMessages > 0 ==> rounds <= marks[rounds].ops
    decreases rounds
  {
    if rounds > 0 {
      WholeRoundsDispatch(marks[..rounds], rounds - 1, maxMessages, queued, others);
      assert WholeRound(marks[rounds - 1], marks[rounds], maxMessages, queued, others);
      assert rounds * maxMessages as int == (rounds - 1) * maxMessages as int + maxMessages as int;
    }
  }

  /** `update`, for the number of rounds that pass before the shutdown is seen: what it handed to
      `onMessage`, followed by what is left, is what was queued and what arrived, in order; and
      each of the rounds was a whole one. */
  method Update(q: TsQueue<Owned>, maxMessages: UInt8, others: nat -> seq<Owned>, rounds: nat)
    returns (dispatched: seq<Owned>, ops: nat, ghost marks: seq<Mark>)
    modifies q
    ensures dispatched + q.deqQueue == old(q.deqQueue) + Arrived(others, 0, ops)
    ensures WholeRounds(marks, rounds, maxMessages, |old(q.deqQueue)|, others)
    ensures marks[rounds] == Mark(ops, |dispatched|)
    ensures |dispatched| <= rounds * maxMessages as int
    ensures |dispatched| < rounds * maxMessages as int ==> |old(q.deqQueue)| <= |dispatched|
  {
    dispatched, ops := [], 0;
    marks := [Mark(0, 0)];
    var round := 0;
    while round < rounds
      invariant round <= rounds
      invariant dispatched + q.deqQueue == old(q.deqQueue) + Arrived(others, 0, ops)
      invariant WholeRounds(marks, round, maxMessages, |old(q.deqQueue)|, others)
      invariant marks[round] == Mark(ops, |dispatched|)
    {
      ghost var queued, arrived := q.deqQueue, Arrived(others, 0, ops);
      var more, ops' := Round(q, maxMessages, others, ops);
      ArrivedSplit(others, 0, ops, ops');
      Regroup(dispatched, more, q.deqQueue, queued, old(q.deqQueue), arrived, Arrived(others, ops, ops'));
      dispatched := dispatched + more;
      ops := ops';
      marks := marks + [Mark(ops, |dispatched|)];
      round := round + 1;
    }
    WholeRoundsDispatch(marks, rounds, maxMessages, |old(q.deqQueue)|, others);
  }
}
