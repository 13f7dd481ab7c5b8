/**
 * The bounded queue between the request handlers and the workers. Each method holds the lock for
 * its whole body, so each is one atomic step.
 */
module MultiThreadQueue {

  const UINT_MODULUS := 0x1_0000_0000

  /** An unsigned counter plus one. */
  function Inc(n: nat): nat { (n + 1) % UINT_MODULUS }

  /** The content and counters of a queue; dropSize 0 means no limit. */
  datatype Content<T> = Content(items: seq<T>, inCount: nat, outCount: nat, dropCount: nat, dropSize: nat)
  {
    predicate Full() { dropSize > 0 && |items| >= dropSize }

    /** A push to the back is refused when the queue is full. */
    function Pushed(x: T): Content<T> {
      if Full() then this.(dropCount := Inc(dropCount))
      else this.(items := items + [x], inCount := Inc(inCount))
    }

    /** A push to the front always succeeds; when the queue is full it evicts the last item. */
    function PushedFront(x: T): Content<T> {
      if Full() then this.(items := [x] + items[..|items| - 1], dropCount := Inc(dropCount))
      else this.(items := [x] + items)
    }

    function Popped(): Content<T>
      requires items != []
    {
      this.(items := items[1..], outCount := Inc(outCount))
    }

    function CountersRead(): Content<T> { this.(inCount := 0, outCount := 0, dropCount := 0) }
  }

  class MultiThreadQueue<T> {
    var mQueue: seq<T>
    var mInCount: nat
    var mOutCount: nat
    var mDropCount: nat
    var mDropSize: nat
    var mRunning: bool

    function View(): Content<T>
      reads this
    {
      Content(mQueue, mInCount, mOutCount, mDropCount, mDropSize)
    }

    constructor ()
      ensures View() == Content([], 0, 0, 0, 0) && mRunning
    {
      mQueue := [];
      mInCount, mOutCount, mDropCount, mDropSize := 0, 0, 0, 0;
      mRunning := true;
    }

    method Push(item: T)
      modifies this
      ensures View() == old(View()).Pushed(item) && mRunning == old(mRunning)
      ensures if old(mDropSize) > 0 && old(|mQueue|) >= old(mDropSize) then
                mQueue == old(mQueue) && mInCount == old(mInCount) && mDropCount == (old(mDropCount) + 1) % UINT_MODULUS
              else
                && mQueue == old(mQueue) + [item]
                && mInCount == (old(mInCount) + 1) % UINT_MODULUS && mDropCount == old(mDropCount)
    {
      if mDropSize > 0 && |mQueue| >= mDropSize {
        mDropCount := (mDropCount + 1) % UINT_MODULUS;
      } else {
        mQueue := mQueue + [item];
        mInCount := (mInCount + 1) % UINT_MODULUS;
      }
    }

    method PushFront(item: T)
      modifies this
      ensures View() == old(View()).PushedFront(item) && mRunning == old(mRunning)
      ensures if old(mDropSize) > 0 && old(|mQueue|) >= old(mDropSize) then
                && mQueue == [item] + old(mQueue[..|mQueue| - 1]) && mDropCount == (old(mDropCount) + 1) % UINT_MODULUS
              else
                mQueue == [item] + old(mQueue) && mDropCount == old(mDropCount)
    {
      if mDropSize > 0 && |mQueue| >= mDropSize {
        mDropCount := (mDropCount + 1) % UINT_MODULUS;
        mQueue := mQueue[..|mQueue| - 1];
      }
      mQueue := [item] + mQueue;
    }

    /** Blocks while the queue is empty, so it proceeds only from a non-empty one. */
    method Pop() returns (item: T)
      requires mQueue != []
      modifies this
      ensures item == old(mQueue[0]) && View() == old(View()).Popped() && mRunning == old(mRunning)
      ensures [item] + mQueue == old(mQueue) && mOutCount == (old(mOutCount) + 1) % UINT_MODULUS
    {
      item := mQueue[0];
      mQueue := mQueue[1..];
      mOutCount := (mOutCount + 1) % UINT_MODULUS;
    }

    method Size() returns (size: nat)
      ensures size == |mQueue|
    {
      size := |mQueue|;
    }

    method SetDropSize(dropSize: nat)
      modifies this
      ensures View() == old(View()).(dropSize := dropSize) && mRunning == old(mRunning)
    {
      mDropSize := dropSize;
    }

    method GetCounters() returns (inCount: nat, outCount: nat, dropCount: nat)
      modifies this
      ensures inCount == old(mInCount) && outCount == old(mOutCount) && dropCount == old(mDropCount)
      ensures View() == old(View()).CountersRead() && mRunning == old(mRunning)
    {
      inCount, outCount, dropCount := mInCount, mOutCount, mDropCount;
      mInCount, mOutCount, mDropCount := 0, 0, 0;
    }

    method Stop()
      modifies this
      ensures !mRunning && View() == old(View())
    {
      mRunning := false;
    }
  }
}
