/** The request queue: a slice with a moving head, compacted when the head passes the middle. */
module Queue {
  import opened Options

  class Queue<T(==)> {
    var items: seq<T>
    var head: nat
    var uniqueCheck: set<string>
    const hash: Option<T -> string>
    /** Items handed out, and elements copied by compactions, over the whole run. */
    ghost var dequeued: nat
    ghost var copied: nat

    ghost function Contents(): seq<T>
      requires head <= |items|
      reads this
    {
      items[head..]
    }

    ghost predicate Valid()
      reads this
    {
      && head <= |items| / 2
      && copied + head <= dequeued
      && (forall h :: h in uniqueCheck ==> hash.Some? && exists x :: x in Contents() && hash.value(x) == h)
    }

    /** The check set is exactly the live hashes. */
    ghost predicate Exact()
      requires head <= |items|
      reads this
    {
      hash.Some? ==> forall x :: x in Contents() ==> hash.value(x) in uniqueCheck
    }

    constructor (hash: Option<T -> string>)
      ensures Valid() && Exact() && Contents() == [] && this.hash == hash && dequeued == copied == 0
    {
      items, head, uniqueCheck, this.hash := [], 0, {}, hash;
      dequeued, copied := 0, 0;
    }

    method Enqueue(item: T)
      requires Valid()
      modifies this
      ensures Valid() && Contents() == old(Contents()) + [item]
      ensures dequeued == old(dequeued) && copied == old(copied)
      ensures old(Exact()) ==> Exact()
    {
      if hash.Some? {
        uniqueCheck := uniqueCheck + {hash.value(item)};
      }
      items := items + [item];
      assert Contents() == old(Contents()) + [item];
      assert item in Contents();
    }

    /**
      First in, first out. The check set forgets a hash with the first of its items that leaves, so it
      stays exact precisely when no remaining item has the hash of the one that left.
    */
    method Dequeue() returns (item: Option<T>)
      requires Valid()
      modifies this
      ensures Valid()
      ensures old(Contents()) == [] ==>
        item.None? && Contents() == [] && dequeued == old(dequeued) && copied == old(copied)
      ensures old(Contents()) != [] ==>
        && item == Some(old(Contents())[0]) && Contents() == old(Contents())[1..]
        && dequeued == old(dequeued) + 1
        && (old(Exact()) && hash.Some? ==>
              (Exact() <==> forall x :: x in Contents() ==> hash.value(x) != hash.value(item.value)))
    {
      if head >= |items| {
        return None;
      }
      var first := items[head];
      ghost var was := Contents();
      head := head + 1;
      dequeued := dequeued + 1;
      if head > |items| / 2 {
        copied := copied + (|items| - head);
        items, head := items[head..], 0;
      }
      if hash.Some? {
        uniqueCheck := uniqueCheck - {hash.value(first)};
      }
      assert Contents() == was[1..];
      assert was == [first] + Contents();
      return Some(first);
    }
  }
}
