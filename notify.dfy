/**
 * Messages to the Telegram chat. Sending is an outside call that may fail; an
 * attempt either reaches the chat or raises, and which attempts fail is a
 * parameter of the model.
 */
module Notify {
  import opened Seqs
  import opened Borrowings

  datatype Message =
    | BorrowingCreated(title: string, email: string, expectedReturnDate: Date)
    | OverdueNotice(title: string, email: string, borrowDate: Date)
    | NothingOverdue

  /** The numbers of the attempts, out of `n`, that do not fail, in increasing order. */
  function Succeeding(n: nat, failing: set<nat>): (ok: seq<nat>)
    ensures forall k: nat :: k in ok <==> k < n && k !in failing
    ensures forall i, j :: 0 <= i < j < |ok| ==> ok[i] < ok[j]
  {
    if n == 0 then []
    else
      var prev := Succeeding(n - 1, failing);
      assert forall i :: 0 <= i < |prev| ==> prev[i] in prev;
      if n - 1 in failing then prev else prev + [n - 1]
  }

  /**
   * The messages that reach the chat when `attempts` are sent in order and
   * attempt number k fails exactly when k is in `failing`: the messages of the
   * succeeding attempts, in attempt order.
   */
  function Delivered(attempts: seq<Message>, failing: set<nat>): (r: seq<Message>)
    ensures IsSubsequence(r, attempts)
    ensures |r| == |set k | 0 <= k < |attempts| && k !in failing|
  {
    if attempts == [] then []
    else
      var last := |attempts| - 1;
      var init := attempts[..last];
      var prev := Delivered(init, failing);
      assert attempts == init + [attempts[last]];
      var before := set k | 0 <= k < last && k !in failing;
      var now := set k | 0 <= k < |attempts| && k !in failing;
      if last in failing then
        assert now == before;
        SubsequenceSnoc(prev, init, attempts[last]);
        prev
      else
        assert now == before + {last} && last !in before;
        SubsequenceSnoc(prev, init, attempts[last]);
        prev + [attempts[last]]
  }

  /** Message i of the chat is the message of the i-th succeeding attempt. */
  lemma {:induction false} DeliveredInOrder(attempts: seq<Message>, failing: set<nat>)
    ensures var ok, r := Succeeding(|attempts|, failing), Delivered(attempts, failing);
            && |r| == |ok|
            && forall i :: 0 <= i < |ok| ==> ok[i] < |attempts| && r[i] == attempts[ok[i]]
  {
    if attempts != [] {
      var last := |attempts| - 1;
      var init := attempts[..last];
      DeliveredInOrder(init, failing);
      var okPrev, rPrev := Succeeding(last, failing), Delivered(init, failing);
      var ok, r := Succeeding(|attempts|, failing), Delivered(attempts, failing);
      assert ok == if last in failing then okPrev else okPrev + [last];
      assert r == if last in failing then rPrev else rPrev + [attempts[last]];
      forall i | 0 <= i < |ok| ensures ok[i] < |attempts| && r[i] == attempts[ok[i]] {
        if i < |okPrev| {
          assert ok[i] == okPrev[i] && r[i] == rPrev[i];
          assert init[okPrev[i]] == attempts[okPrev[i]];
        }
      }
    }
  }

  /** One more attempt, number |attempts|, adds its message exactly when it does not fail. */
  lemma DeliveredSnoc(attempts: seq<Message>, m: Message, failing: set<nat>)
    ensures Delivered(attempts + [m], failing) ==
              Delivered(attempts, failing) + (if |attempts| in failing then [] else [m])
  {
    assert (attempts + [m])[..|attempts|] == attempts;
  }

  /** A failed attempt does not stop the others: every attempt that does not fail arrives. */
  lemma {:induction false} DeliveredKeepsSuccesses(attempts: seq<Message>, failing: set<nat>)
    ensures forall k :: 0 <= k < |attempts| && k !in failing ==> attempts[k] in Delivered(attempts, failing)
    ensures (forall k :: 0 <= k < |attempts| ==> k !in failing) ==> Delivered(attempts, failing) == attempts
  {
    if attempts != [] {
      var last := |attempts| - 1;
      DeliveredKeepsSuccesses(attempts[..last], failing);
      assert attempts == attempts[..last] + [attempts[last]];
      forall k | 0 <= k < last && k !in failing
        ensures attempts[k] in Delivered(attempts, failing)
      {
        assert attempts[..last][k] == attempts[k];
      }
    }
  }
}
