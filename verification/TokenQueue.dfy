/** The ring buffer of token references of soko_falcon_pipeline.c. */
module TokenQueue {
  import opened Words
  import opened RefillProtocol

  /** The array index of the i-th queued reference. */
  function Slot(head: nat, i: nat, n: nat): (k: nat)
    requires n > 0
    ensures k < n
  {
    (head + i) % n
  }

  class RingQueue {
    const items: array<Ref>
    var head: nat
    var tail: nat
    var count: nat

    ghost predicate Valid()
      reads this, items
    {
      0 < items.Length && head < items.Length && count <= items.Length && tail == Slot(head, count, items.Length)
    }

    ghost function Contents(): (s: seq<Ref>)
      reads this, items
      requires Valid()
      ensures |s| == count
    {
      seq(count, i requires 0 <= i < count reads this, items => items[Slot(head, i, items.Length)])
    }

    /** soko_queue_init */
    constructor (capacity: nat)
      requires capacity > 0
      ensures Valid() && Contents() == [] && items.Length == capacity && fresh(items)
    {
      items := new Ref[capacity](i => Ref(0, 0));
      head, tail, count := 0, 0, 0;
    }

    /** soko_queue_push */
    method Push(r: Ref) returns (ok: bool)
      requires Valid()
      modifies this, items
      ensures Valid() && ok == (|old(Contents())| < items.Length)
      ensures Contents() == if ok then old(Contents()) + [r] else old(Contents())
    {
      if count >= items.Length {
        return false;
      }
      SlotsDiffer(head, count, items.Length);
      NextSlot(head, count, items.Length);
      items[tail] := r;
      tail := (tail + 1) % items.Length;
      count := count + 1;
      return true;
    }

    /** soko_queue_pop */
    method Pop() returns (ok: bool, r: Ref)
      requires Valid()
      modifies this
      ensures Valid() && ok == (|old(Contents())| > 0)
      ensures ok ==> r == old(Contents())[0] && Contents() == old(Contents())[1..]
      ensures !ok ==> Contents() == old(Contents())
    {
      if count <= 0 {
        return false, Ref(0, 0);
      }
      ghost var before := Contents();
      FirstSlot(head, items.Length);
      r := items[head];
      ghost var h := head;
      head := (head + 1) % items.Length;
      count := count - 1;
      forall i | 0 <= i < count + 1
        ensures Slot(head, i, items.Length) == Slot(h, i + 1, items.Length)
      {
        ShiftedSlot(h, i, items.Length);
      }
      assert Contents() == before[1..];
      return true, r;
    }

    /** soko_enqueue_bank_tokens */
    method EnqueueBankTokens(bank: nat, tokens: nat) returns (ok: bool)
      requires Valid()
      modifies this, items
      ensures Valid() && (Contents(), ok) == Enqueue(old(Contents()), bank, 0, tokens, items.Length)
    {
      for i := 0 to tokens
        invariant Valid()
        invariant Enqueue(old(Contents()), bank, 0, tokens, items.Length) == Enqueue(Contents(), bank, i, tokens, items.Length)
      {
        ok := Push(Ref(bank, i));
        if !ok {
          return false;
        }
      }
      return true;
    }
  }

  lemma FirstSlot(h: nat, n: nat)
    requires h < n
    ensures Slot(h, 0, n) == h
  {
  }

  lemma Wrap(a: nat, n: nat)
    requires 0 < n && a < 2 * n
    ensures a % n == if a < n then a else a - n
  {
    var q := a / n;
    assert a == n * q + a % n;
    if q >= 2 { MulMono(2, q, n); }
    if q < 0 { MulMono(q, -1, n); }
    if q == 0 { assert n * q == 0; }
    if q == 1 { assert n * q == n; }
  }

  lemma SlotsDiffer(h: nat, k: nat, n: nat)
    requires h < n && k < n
    ensures forall i :: 0 <= i < k ==> Slot(h, i, n) != Slot(h, k, n)
  {
    Wrap(h + k, n);
    forall i | 0 <= i < k
      ensures Slot(h, i, n) != Slot(h, k, n)
    {
      Wrap(h + i, n);
    }
  }

  lemma NextSlot(h: nat, k: nat, n: nat)
    requires h < n && k < n
    ensures (Slot(h, k, n) + 1) % n == Slot(h, k + 1, n)
  {
    Wrap(h + k, n);
    Wrap((h + k) % n + 1, n);
    Wrap(h + k + 1, n);
  }

  lemma ShiftedSlot(h: nat, i: nat, n: nat)
    requires h < n && i < n
    ensures Slot((h + 1) % n, i, n) == Slot(h, i + 1, n)
  {
    Wrap(h + 1, n);
    Wrap((h + 1) % n + i, n);
    Wrap(h + i + 1, n);
  }
}
