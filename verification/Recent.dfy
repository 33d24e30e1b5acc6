/** The bounded "keep the newest values" discipline shared by every window and history buffer. */
module Recent {

  /** The newest n elements, or everything when there are fewer. */
  function LastN<T>(s: seq<T>, n: nat): (r: seq<T>)
    ensures |r| == if |s| <= n then |s| else n
    ensures forall i :: 0 <= i < |r| ==> r[i] == s[|s| - |r| + i]
  {
    if |s| <= n then s else s[|s| - n..]
  }

  /** What a buffer declared with `maxSize` can really hold: a declared size of 0 still keeps one value. */
  function Capacity(maxSize: nat): nat {
    if maxSize == 0 then 1 else maxSize
  }

  /** One push: drop the oldest value once the declared size is reached, then append. */
  function Pushed<T>(s: seq<T>, maxSize: nat, x: T): seq<T> {
    (if |s| >= maxSize && s != [] then s[1..] else s) + [x]
  }

  function PushAll<T>(s: seq<T>, maxSize: nat, xs: seq<T>): seq<T> {
    if xs == [] then s else Pushed(PushAll(s, maxSize, xs[..|xs| - 1]), maxSize, xs[|xs| - 1])
  }

  lemma PushKeepsNewest<T>(log: seq<T>, maxSize: nat, x: T)
    ensures Pushed(LastN(log, Capacity(maxSize)), maxSize, x) == LastN(log + [x], Capacity(maxSize))
  {
  }

  /** Any number of pushes onto an empty buffer leaves exactly the newest max(1, maxSize) of them, in order. */
  lemma {:induction false} PushAllIsLastN<T>(maxSize: nat, xs: seq<T>)
    ensures PushAll([], maxSize, xs) == LastN(xs, Capacity(maxSize))
  {
    if xs == [] {
    } else {
      var front, x := xs[..|xs| - 1], xs[|xs| - 1];
      PushAllIsLastN(maxSize, front);
      PushKeepsNewest(front, maxSize, x);
      assert front + [x] == xs;
    }
  }
}
