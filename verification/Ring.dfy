/**
  Circular buffers as the JTAG UART driver keeps them: a fixed array, an index of the
  oldest element and an index one past the newest. One slot is never used, so equal
  indices mean "empty".
 */
module Ring {

  /** An index that has advanced to at most the end of a buffer of length `len`, brought back into it. */
  function Wrap(i: nat, len: nat): (j: nat)
    requires i <= len && 0 < len
    ensures j < len
  {
    if i == len then 0 else i
  }

  /** The remainder operation that the driver writes is this wrapping. */
  lemma WrapIsRemainder(i: nat, len: nat)
    requires i <= len && 0 < len
    ensures Wrap(i, len) == i % len
  {
    if i == len {
      assert i % len == 0;
    }
  }

  /** The number of elements between two indices. */
  function Distance(start: nat, stop: nat, len: nat): (d: nat)
    requires start < len && stop < len
    ensures d < len
    ensures d == 0 <==> start == stop
  {
    if start <= stop then stop - start else len - start + stop
  }

  /** The buffer index of the element `k` places after the oldest one. */
  function Slot(start: nat, k: nat, len: nat): (i: nat)
    requires start < len && k < len
    ensures i < len
  {
    if start + k < len then start + k else start + k - len
  }

  /** `s` is what lies from index `start` round to index `stop`, oldest first. */
  ghost predicate Holds<T>(buf: seq<T>, start: nat, stop: nat, s: seq<T>)
    requires start < |buf| && stop < |buf|
  {
    && |s| == Distance(start, stop, |buf|)
    && forall k {:trigger s[k]} :: 0 <= k < |s| ==> s[k] == buf[Slot(start, k, |buf|)]
  }

  /** The contents written with slices: one piece, or two when they wrap round the end. */
  lemma Slices<T>(buf: seq<T>, start: nat, stop: nat, s: seq<T>)
    requires start < |buf| && stop < |buf|
    ensures Holds(buf, start, stop, s) <==> s == if start <= stop then buf[start..stop] else buf[start..] + buf[..stop]
  {
    var t := if start <= stop then buf[start..stop] else buf[start..] + buf[..stop];
    assert forall k :: 0 <= k < |t| ==> t[k] == buf[Slot(start, k, |buf|)];
  }

  /** Storing in the first free slot and advancing `stop` appends. */
  lemma Push<T>(buf: seq<T>, start: nat, stop: nat, s: seq<T>, x: T)
    requires start < |buf| && stop < |buf| && Holds(buf, start, stop, s)
    requires Wrap(stop + 1, |buf|) != start
    ensures Holds(buf[stop := x], start, Wrap(stop + 1, |buf|), s + [x])
  {
  }

  /** Advancing `start` over a non-empty ring removes the oldest element. */
  lemma Pop<T>(buf: seq<T>, start: nat, stop: nat, s: seq<T>)
    requires start < |buf| && stop < |buf| && start != stop && Holds(buf, start, stop, s)
    ensures s[0] == buf[start] && Holds(buf, Wrap(start + 1, |buf|), stop, s[1..])
  {
  }

  /** A slot that lies `k` places past `stop` and is free is not part of the contents. */
  lemma FreeSlot<T>(buf: seq<T>, start: nat, stop: nat, s: seq<T>, k: nat, x: T)
    requires start < |buf| && stop < |buf| && Holds(buf, start, stop, s)
    requires stop + k < |buf| && k + 1 + |s| < |buf|
    ensures Holds(buf[stop + k := x], start, stop, s)
  {
  }

  /** A chunk already copied into the free slots after `stop` joins the ring when `stop` moves past it. */
  lemma Publish<T>(buf: seq<T>, start: nat, stop: nat, s: seq<T>, chunk: seq<T>)
    requires start < |buf| && stop < |buf| && Holds(buf, start, stop, s)
    requires stop + |chunk| <= |buf| && |chunk| + |s| < |buf|
    requires buf[stop..stop + |chunk|] == chunk
    ensures Holds(buf, start, Wrap(stop + |chunk|, |buf|), s + chunk)
  {
    forall k | 0 <= k < |chunk| ensures chunk[k] == buf[stop + k] {
      assert buf[stop..stop + |chunk|][k] == buf[stop + k];
    }
  }

  /** Moving `start` past a chunk that does not wrap removes that chunk from the front. */
  lemma Consume<T>(buf: seq<T>, start: nat, stop: nat, s: seq<T>, n: nat)
    requires start < |buf| && stop < |buf| && Holds(buf, start, stop, s)
    requires n <= |s| && start + n <= |buf|
    ensures buf[start..start + n] == s[..n]
    ensures Holds(buf, Wrap(start + n, |buf|), stop, s[n..])
  {
    forall k | 0 <= k < n ensures buf[start..start + n][k] == s[k] {
      assert Slot(start, k, |buf|) == start + k;
    }
  }

  /** Moving the first element of one stream to the end of another keeps their concatenation. */
  lemma Shift<T>(done: seq<T>, rest: seq<T>)
    requires rest != []
    ensures (done + [rest[0]]) + rest[1..] == done + rest
  {
    assert rest == [rest[0]] + rest[1..];
  }
}
