/**
 A queue as a deque, and what a whole run of operations on it conserves.
 */
module QueueHistory {
  datatype Op<+T> = Back(x: T) | Front(x: T) | Overwrite(x: T) | Take | Clear

  function Apply<T>(items: seq<T>, op: Op<T>): seq<T> {
    match op
    case Back(x) => items + [x]
    case Front(x) => [x] + items
    case Overwrite(x) => if items == [] then [x] else [x] + items[1..]
    case Take => if items == [] then [] else items[1..]
    case Clear => []
  }

  function Replay<T>(run: seq<Op<T>>): seq<T> {
    if run == [] then [] else Apply(Replay(run[..|run| - 1]), run[|run| - 1])
  }

  /** What the receivers have got, in order. */
  function Received<T>(run: seq<Op<T>>): seq<T> {
    if run == [] then []
    else
      var before, op := run[..|run| - 1], run[|run| - 1];
      Received(before) + if op.Take? && Replay(before) != [] then [Replay(before)[0]] else []
  }

  /** What the senders have sent, in order. */
  function Sent<T>(run: seq<Op<T>>): seq<T> {
    if run == [] then []
    else
      var op := run[|run| - 1];
      Sent(run[..|run| - 1]) + if op.Back? || op.Front? || op.Overwrite? then [op.x] else []
  }

  lemma ReplayNext<T>(run: seq<Op<T>>, op: Op<T>)
    ensures Replay(run + [op]) == Apply(Replay(run), op)
  {
    assert (run + [op])[..|run + [op]| - 1] == run;
  }

  lemma {:induction false} TakeSplits<T>(received: seq<T>, items: seq<T>)
    requires items != []
    ensures (received + [items[0]]) + items[1..] == received + items
  {
  }

  /** With sends to the back only, the items are received in the order in which they were sent. */
  lemma {:induction false} FirstInFirstOut<T>(run: seq<Op<T>>)
    requires forall i :: 0 <= i < |run| ==> run[i].Back? || run[i].Take?
    ensures Sent(run) == Received(run) + Replay(run)
  {
    if run != [] {
      var before, op := run[..|run| - 1], run[|run| - 1];
      FirstInFirstOut(before);
      if op.Back? {
        assert (Received(before) + Replay(before)) + [op.x] == Received(before) + (Replay(before) + [op.x]);
      } else if Replay(before) != [] {
        TakeSplits(Received(before), Replay(before));
      }
    }
  }

  /** The next receiver gets an item that is sent to the front, and behind it the items are as they were. */
  lemma {:induction false} FrontIsNext<T>(run: seq<Op<T>>, x: T)
    ensures Received(run + [Front(x), Take]) == Received(run) + [x]
    ensures Replay(run + [Front(x), Take]) == Replay(run)
    ensures multiset(Replay(run + [Front(x)])) == multiset(Replay(run)) + multiset{x}
  {
    var sent := run + [Front(x)];
    assert run + [Front(x), Take] == sent + [Take];
    assert (sent + [Take])[..|sent|] == sent && sent[..|run|] == run;
    ReplayNext(run, Front(x));
    ReplayNext(sent, Take);
    assert Received(sent) == Received(run);
  }

  /** With sends to the front only, the items stand in the reverse order of sending. */
  lemma {:induction false} LastInFirstOut<T>(run: seq<Op<T>>, k: nat)
    requires forall i :: 0 <= i < |run| ==> run[i].Front?
    requires k < |run|
    ensures |Replay(run)| == |Sent(run)| == |run| && Sent(run)[k] == run[k].x == Replay(run)[|run| - 1 - k]
  {
    var before := run[..|run| - 1];
    if before != [] {
      LastInFirstOut(before, if k < |before| then k else 0);
    }
  }

  /**
   A queue of one slot that is only overwritten holds the item of the last overwriting, until it is taken; the item is
   received if and only if no other has taken its place before.
   */
  lemma {:induction false} Mailbox<T>(run: seq<Op<T>>)
    requires forall i :: 0 <= i < |run| ==> run[i].Overwrite? || run[i].Take?
    ensures Replay(run) == if run == [] || run[|run| - 1].Take? then [] else [run[|run| - 1].x]
    ensures Received(run) == OverwrittenLast(run)
  {
    if run != [] {
      Mailbox(run[..|run| - 1]);
    }
  }

  /** The items of the overwritings that are followed by a receive */
  function OverwrittenLast<T>(run: seq<Op<T>>): seq<T> {
    if |run| < 2 then []
    else
      var last, op := run[|run| - 2], run[|run| - 1];
      OverwrittenLast(run[..|run| - 1]) + if last.Overwrite? && op.Take? then [last.x] else []
  }

  /** Unless items are overwritten or cleared, each item sent is received once or still waits, and nothing else is. */
  lemma {:induction false} Conservation<T>(run: seq<Op<T>>)
    requires forall i :: 0 <= i < |run| ==> run[i].Back? || run[i].Front? || run[i].Take?
    ensures multiset(Sent(run)) == multiset(Received(run)) + multiset(Replay(run))
  {
    if run != [] {
      var before, op := run[..|run| - 1], run[|run| - 1];
      Conservation(before);
      if op.Take? && Replay(before) != [] {
        TakeSplits(Received(before), Replay(before));
        assert multiset(Received(before) + Replay(before)) == multiset(Received(run) + Replay(run));
      }
    }
  }
}
