/** A queue of requests in a few fixed slots, as every device driver here keeps one: a slot is free when it has no
    callback. */
module RequestQueue {
  datatype Slot<T> = Free | Busy(item: T)

  // ----------------------------------------------------------------- room in the queue

  /** Clients with no more than one request each, and one slot more than there are clients: there is room for a request
      of any client that has none, also while the slot of the request just finished is not yet free. */
  lemma RoomForOneMore<T(!new)>(queue: seq<Slot<T>>, out: int, who: T -> nat, n: nat, client: nat)
    requires OneEach(queue, out, who, n) && |queue| > n && client < n && !Outstanding(queue, out, who, client)
    ensures exists k :: 0 <= k < |queue| && queue[k].Free?
  {
    if forall k :: 0 <= k < |queue| ==> queue[k].Busy? {
      var s := seq(|queue|, k requires 0 <= k < |queue| => if k == out then client else who(queue[k].item));
      forall k | 0 <= k < |s| ensures s[k] < n {
        assert k != out ==> Live(queue, out, k);
      }
      forall j, k | 0 <= j < k < |s| ensures s[j] != s[k] {
        assert (j != out ==> Live(queue, out, j)) && (k != out ==> Live(queue, out, k));
      }
      Distinct(s, n);
    }
  }

  lemma {:induction false} Distinct(s: seq<nat>, n: nat)
    requires forall k :: 0 <= k < |s| ==> s[k] < n
    requires forall j, k :: 0 <= j < k < |s| ==> s[j] != s[k]
    ensures |s| <= n
    decreases n
  {
    if s == [] {
    } else {
      assert s[0] < n;
      if i :| 0 <= i < |s| && s[i] == n - 1 {
        Distinct(s[..i] + s[i + 1..], n - 1);
      } else {
        Distinct(s, n - 1);
      }
    }
  }

  // ------------------------------------------------------------- accounting for reads

  /** Slot k holds a read whose callback has not been called; out is the slot of the one being called, if any. */
  ghost predicate Live<T>(queue: seq<Slot<T>>, out: int, k: int) {
    0 <= k < |queue| && queue[k].Busy? && k != out
  }

  /** The clients are numbered below n, and none has two requests. */
  ghost predicate OneEach<T(!new)>(queue: seq<Slot<T>>, out: int, who: T -> nat, n: nat) {
    && (forall k :: Live(queue, out, k) ==> who(queue[k].item) < n)
    && (forall j, k :: Live(queue, out, j) && Live(queue, out, k) && j < k ==> who(queue[j].item) != who(queue[k].item))
  }

  ghost predicate Outstanding<T(!new)>(queue: seq<Slot<T>>, out: int, who: T -> nat, client: nat) {
    exists k :: Live(queue, out, k) && who(queue[k].item) == client
  }

  lemma PlaceOneEach<T(!new)>(queue: seq<Slot<T>>, out: int, who: T -> nat, n: nat, i: nat, item: T)
    requires OneEach(queue, out, who, n) && i < |queue| && queue[i].Free? && i != out
    requires who(item) < n && !Outstanding(queue, out, who, who(item))
    ensures OneEach(queue[i := Busy(item)], out, who, n)
  {
    var q' := queue[i := Busy(item)];
    assert forall k :: Live(q', out, k) ==> k == i || Live(queue, out, k);
  }

  /** A client whose request is finished has none, and may ask for the next one in its callback. */
  lemma FinishOneEach<T(!new)>(queue: seq<Slot<T>>, who: T -> nat, n: nat, i: nat)
    requires OneEach(queue, -1, who, n) && i < |queue| && queue[i].Busy?
    ensures OneEach(queue, i, who, n) && !Outstanding(queue, i, who, who(queue[i].item))
  {
    assert Live(queue, -1, i);
    assert forall k :: Live(queue, i, k) ==> Live(queue, -1, k);
  }

  lemma FreeOneEach<T(!new)>(queue: seq<Slot<T>>, who: T -> nat, n: nat, i: nat)
    requires OneEach(queue, i, who, n) && i < |queue|
    ensures OneEach(queue[i := Free], -1, who, n)
  {
    assert forall k :: Live(queue[i := Free], -1, k) ==> Live(queue, i, k);
  }

  lemma SameOneEach<T(!new)>(queue: seq<Slot<T>>, who: T -> nat, n: nat, i: nat, item: T)
    requires OneEach(queue, -1, who, n) && i < |queue| && queue[i].Busy? && who(item) == who(queue[i].item)
    ensures OneEach(queue[i := Busy(item)], -1, who, n)
  {
    assert Live(queue, -1, i);
    assert forall k :: Live(queue[i := Busy(item)], -1, k) ==> Live(queue, -1, k);
  }

  ghost predicate Held<T>(queue: seq<Slot<T>>, ids: seq<nat>, out: int, id: nat)
    requires |ids| == |queue|
  {
    exists k :: Live(queue, out, k) && ids[k] == id
  }

  /** Every one of n reads is either waiting or done, and none of them twice. */
  ghost predicate AllAccounted<T>(queue: seq<Slot<T>>, ids: seq<nat>, out: int, done: seq<nat>, n: nat) {
    && |ids| == |queue|
    && (forall k :: Live(queue, out, k) ==> ids[k] < n && ids[k] !in done)
    && (forall j, k :: Live(queue, out, j) && Live(queue, out, k) && j < k ==> ids[j] != ids[k])
    && (forall i, j :: 0 <= i < j < |done| ==> done[i] != done[j])
    && (forall id :: id in done ==> id < n)
    && (forall id :: 0 <= id < n ==> id in done || Held(queue, ids, out, id))
  }

  /** When nothing is queued any more, every read has been finished, and exactly once. */
  lemma AllFinished<T>(queue: seq<Slot<T>>, ids: seq<nat>, done: seq<nat>, n: nat)
    requires AllAccounted(queue, ids, -1, done, n) && forall k :: 0 <= k < |queue| ==> queue[k].Free?
    ensures |done| == n && forall id :: 0 <= id < n ==> id in done
  {
    assert forall k :: !Live(queue, -1, k);
    assert forall i :: 0 <= i < |done| ==> done[i] in done;
    Distinct(done, n);
    Covered(done, n);
  }

  lemma {:induction false} Covered(s: seq<nat>, n: nat)
    requires forall id :: 0 <= id < n ==> id in s
    ensures n <= |s|
  {
    if n == 0 {
    } else {
      assert n - 1 in s;
      var i :| 0 <= i < |s| && s[i] == n - 1;
      var t := s[..i] + s[i + 1..];
      forall id | 0 <= id < n - 1 ensures id in t {
        assert id in s;
        var j :| 0 <= j < |s| && s[j] == id;
        assert t[if j < i then j else j - 1] == id;
      }
      Covered(t, n - 1);
    }
  }

  lemma PlaceAccounted<T>(queue: seq<Slot<T>>, ids: seq<nat>, out: int, done: seq<nat>, n: nat, i: nat, s: Slot<T>)
    requires AllAccounted(queue, ids, out, done, n) && i < |queue| && queue[i].Free? && s.Busy? && i != out
    ensures AllAccounted(queue[i := s], ids[i := n], out, done, n + 1)
  {
    var (q', ids') := (queue[i := s], ids[i := n]);
    assert forall k :: Live(q', out, k) ==> k == i || Live(queue, out, k);
    forall id | 0 <= id < n + 1 && id !in done ensures Held(q', ids', out, id) {
      if id == n {
        assert Live(q', out, i) && ids'[i] == id;
      } else {
        var k :| Live(queue, out, k) && ids[k] == id;
        assert Live(q', out, k) && ids'[k] == id;
      }
    }
  }

  lemma FinishAccounted<T>(queue: seq<Slot<T>>, ids: seq<nat>, done: seq<nat>, n: nat, i: nat)
    requires AllAccounted(queue, ids, -1, done, n) && i < |queue| && queue[i].Busy?
    ensures AllAccounted(queue, ids, i, done + [ids[i]], n)
  {
  }

  lemma FreeAccounted<T>(queue: seq<Slot<T>>, ids: seq<nat>, done: seq<nat>, n: nat, i: nat)
    requires AllAccounted(queue, ids, i, done, n) && i < |queue|
    ensures AllAccounted(queue[i := Free], ids, -1, done, n)
  {
  }

  /** What a read asks for may change while it waits. */
  lemma SameAccounted<T>(queue: seq<Slot<T>>, ids: seq<nat>, done: seq<nat>, n: nat, i: nat, item: T)
    requires AllAccounted(queue, ids, -1, done, n) && i < |queue| && queue[i].Busy?
    ensures AllAccounted(queue[i := Busy(item)], ids, -1, done, n)
  {
  }
}
