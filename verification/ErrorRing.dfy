/** The fixed ring that keeps the latest OpenSSL error codes for openssl_error_string. */
module ErrorRing {
  import opened Bytes

  /**
   * A run of the ring as seen from outside: the codes that wait, all codes ever stored and ever
   * fetched, in order, and how many were overwritten.
   */
  datatype Log = Log(queue: seq<int>, stored: seq<int>, fetched: seq<int>, dropped: nat)

  const EMPTY := Log([], [], [], 0)

  /** Storing a code in a queue of the given capacity drops the oldest one when there is no room. */
  function Store(l: Log, code: int, capacity: nat): Log {
    var queue := l.queue + [code];
    if |queue| > capacity then Log(queue[1..], l.stored + [code], l.fetched, l.dropped + 1)
    else Log(queue, l.stored + [code], l.fetched, l.dropped)
  }

  /** Storing several codes, the first one first. */
  function StoreAll(l: Log, codes: seq<int>, capacity: nat): Log
    decreases |codes|
  {
    if codes == [] then l else StoreAll(Store(l, codes[0], capacity), codes[1..], capacity)
  }

  /** Fetching takes the oldest code, if any waits. */
  function Fetch(l: Log): Log {
    if l.queue == [] then l else Log(l.queue[1..], l.stored, l.fetched + [l.queue[0]], l.dropped)
  }

  /** a lists some of the elements of b in the same order. */
  predicate IsSubsequence(a: seq<int>, b: seq<int>) {
    if a == [] then true
    else if b == [] then false
    else
      || IsSubsequence(a, b[..|b| - 1])
      || (a[|a| - 1] == b[|b| - 1] && IsSubsequence(a[..|a| - 1], b[..|b| - 1]))
  }

  /**
   * What every run keeps: the queue is the latest part of what was stored and within capacity, the
   * fetched codes come from the part before it in the same order, and no code is unaccounted for.
   */
  ghost predicate Sound(l: Log, capacity: nat) {
    && |l.queue| <= capacity && |l.queue| <= |l.stored|
    && l.queue == l.stored[|l.stored| - |l.queue|..]
    && IsSubsequence(l.fetched, l.stored[..|l.stored| - |l.queue|])
    && |l.stored| == |l.fetched| + l.dropped + |l.queue|
  }

  lemma StoreSound(l: Log, code: int, capacity: nat)
    requires capacity > 0 && Sound(l, capacity)
    ensures Sound(Store(l, code, capacity), capacity)
  {
    var n, q := |l.stored|, |l.queue|;
    assert l.queue + [code] == (l.stored + [code])[n - q..];
    if q + 1 > capacity {
      assert (l.stored + [code])[..n + 1 - q][..n - q] == l.stored[..n - q];
      assert (l.queue + [code])[1..] == (l.stored + [code])[n + 1 - q..];
    } else {
      assert (l.stored + [code])[..n - q] == l.stored[..n - q];
    }
  }

  lemma {:induction false} StoreAllSound(l: Log, codes: seq<int>, capacity: nat)
    requires capacity > 0 && Sound(l, capacity)
    ensures Sound(StoreAll(l, codes, capacity), capacity)
    ensures StoreAll(l, codes, capacity).stored == l.stored + codes
    ensures StoreAll(l, codes, capacity).fetched == l.fetched
    decreases |codes|
  {
    if codes != [] {
      StoreSound(l, codes[0], capacity);
      StoreAllSound(Store(l, codes[0], capacity), codes[1..], capacity);
      assert l.stored + codes == (l.stored + [codes[0]]) + codes[1..];
    }
  }

  lemma FetchSound(l: Log, capacity: nat)
    requires Sound(l, capacity)
    ensures Sound(Fetch(l), capacity)
  {
    if l.queue != [] {
      var n, q := |l.stored|, |l.queue|;
      var a, b := l.fetched + [l.queue[0]], l.stored[..n - q + 1];
      assert a[..|a| - 1] == l.fetched && b[..|b| - 1] == l.stored[..n - q];
      assert l.queue[0] == l.stored[n - q];
    }
  }

  /** Closed form: after storing, the queue holds the last codes of the old queue followed by the new codes. */
  lemma {:induction false} QueueIsLatest(l: Log, codes: seq<int>, capacity: nat)
    requires capacity > 0 && Sound(l, capacity)
    ensures var all := l.queue + codes;
            StoreAll(l, codes, capacity).queue == all[|all| - Min(|all|, capacity)..]
    decreases |codes|
  {
    var all := l.queue + codes;
    if codes == [] {
      assert all == l.queue;
    } else {
      var m := Store(l, codes[0], capacity);
      StoreSound(l, codes[0], capacity);
      QueueIsLatest(m, codes[1..], capacity);
      assert (l.queue + [codes[0]]) + codes[1..] == all;
      assert |l.queue| + 1 > capacity ==> m.queue + codes[1..] == all[1..];
    }
  }

  /** An operation of the extension: noting pending OpenSSL codes, or noting them and then fetching one. */
  datatype Op = StoreErrors(codes: seq<int>) | ErrorString(codes: seq<int>)

  function Step(l: Log, op: Op, capacity: nat): Log {
    match op
    case StoreErrors(codes) => StoreAll(l, codes, capacity)
    case ErrorString(codes) => Fetch(StoreAll(l, codes, capacity))
  }

  function Run(ops: seq<Op>, capacity: nat): Log {
    if ops == [] then EMPTY else Step(Run(ops[..|ops| - 1], capacity), ops[|ops| - 1], capacity)
  }

  /** After any interleaving of operations the log is sound. */
  lemma {:induction false} RunSound(ops: seq<Op>, capacity: nat)
    requires capacity > 0
    ensures Sound(Run(ops, capacity), capacity)
  {
    if ops != [] {
      RunSound(ops[..|ops| - 1], capacity);
      var l, op := Run(ops[..|ops| - 1], capacity), ops[|ops| - 1];
      StoreAllSound(l, op.codes, capacity);
      if op.ErrorString? {
        FetchSound(StoreAll(l, op.codes, capacity), capacity);
      }
    }
  }

  /** The slot k places after slot i of a ring with n slots. */
  function Slot(i: nat, k: nat, n: nat): nat
    requires i < n && k <= n
  {
    if i + k < n then i + k else i + k - n
  }

  /** The slots behind bottom hold the queue. */
  ghost predicate InSlots(b: seq<int>, bottom: nat, queue: seq<int>) {
    bottom < |b| && |queue| < |b| && forall k | 0 <= k < |queue| :: b[Slot(bottom, k + 1, |b|)] == queue[k]
  }

  /** Writing the next slot appends to the queue while there is room. */
  lemma AppendInSlots(b: seq<int>, bottom: nat, queue: seq<int>, code: int)
    requires InSlots(b, bottom, queue) && |queue| + 1 < |b|
    ensures Slot(bottom, |queue| + 1, |b|) < |b|
    ensures InSlots(b[Slot(bottom, |queue| + 1, |b|) := code], bottom, queue + [code])
  {
  }

  /** In a full ring it replaces the oldest code, whose slot is free from then on. */
  lemma ReplaceInSlots(b: seq<int>, bottom: nat, queue: seq<int>, code: int)
    requires InSlots(b, bottom, queue) && |queue| + 1 == |b| >= 2
    ensures InSlots(b[bottom := code], Slot(bottom, 1, |b|), (queue + [code])[1..])
  {
    var b', from, all := b[bottom := code], Slot(bottom, 1, |b|), queue + [code];
    forall k | 0 <= k < |queue|
      ensures b'[Slot(from, k + 1, |b|)] == all[1..][k]
    {
      assert Slot(from, k + 1, |b|) == Slot(bottom, k + 2, |b|);
    }
  }

  /** The index that follows i around a ring of n slots. */
  method Successor(i: nat, n: nat) returns (j: nat)
    requires i < n
    ensures j == Slot(i, 1, n) < n
  {
    if i + 1 == n {
      assert i + 1 == 1 * n + 0;
    }
    j := (i + 1) % n;
  }

  class Ring {
    const size: nat
    const buffer: array<int>
    var top: nat
    var bottom: nat
    /** The run so far. */
    ghost var log: Log

    /** How many codes wait: the slots after bottom up to top. */
    function Count(): nat
      requires top < size && bottom < size
      reads this`top, this`bottom
    {
      if top >= bottom then top - bottom else top + size - bottom
    }

    ghost predicate Valid()
      reads this, buffer
    {
      && size >= 2 && buffer.Length == size && top < size && bottom < size
      && |log.queue| == Count() && InSlots(buffer[..], bottom, log.queue)
    }

    constructor (n: nat)
      requires n >= 2
      ensures Valid() && fresh(buffer) && size == n && log == EMPTY
    {
      size := n;
      buffer := new int[n](_ => 0);
      top, bottom := 0, 0;
      log := EMPTY;
    }

    /** Puts one code into the next slot, giving up the oldest code when the ring is full. */
    method Put(code: int)
      requires Valid()
      modifies this, buffer
      ensures Valid() && log == Store(old(log), code, size - 1)
    {
      hide InSlots;
      ghost var was := buffer[..];
      if |log.queue| + 1 < size {
        AppendInSlots(was, bottom, log.queue, code);
      } else {
        ReplaceInSlots(was, bottom, log.queue, code);
      }
      top := Successor(top, size);
      if top == bottom {
        bottom := Successor(bottom, size);
      }
      buffer[top] := code;
      assert buffer[..] == was[top := code];
      log := Store(log, code, size - 1);
    }

    /** Notes the codes that OpenSSL has pending; a code is never 0, 0 ends the list. */
    method StoreErrors(pending: seq<int>)
      requires Valid()
      modifies this, buffer
      ensures Valid() && log == StoreAll(old(log), pending, size - 1)
    {
      if pending == [] {
        return;
      }
      var rest := pending;
      while rest != []
        invariant Valid()
        invariant StoreAll(log, rest, size - 1) == StoreAll(old(log), pending, size - 1)
      {
        Put(rest[0]);
        rest := rest[1..];
      }
    }

    /** The oldest code that waits after the pending ones are noted; None when there is none. */
    method ErrorString(pending: seq<int>) returns (code: Option<int>)
      requires Valid()
      modifies this, buffer
      ensures Valid()
      ensures var l := StoreAll(old(log), pending, size - 1);
              && log == Fetch(l)
              && code == if l.queue == [] then None else Some(l.queue[0])
    {
      StoreErrors(pending);
      if top == bottom {
        return None;
      }
      bottom := Successor(bottom, size);
      code := Some(buffer[bottom]);
      log := Fetch(log);
    }
  }
}
