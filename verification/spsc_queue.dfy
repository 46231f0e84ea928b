/** The ring queue for one producer and one consumer, operation by operation. An item is a cell of the array, and null
    is the null pointer: push then leaves the cell as it is, pop drops the item. Counters do not overflow. */
module SpscQueue {
  import opened Bits
  import opened Wrappers
  import opened SpscRing

  class Queue<T(0)> {
    const items: array<T>
    const capLog2: nat
    var head: nat
    var tail: nat

    /** A capacity is an int, and the number of used cells a uint32_t. */
    ghost predicate Valid()
      reads this
    {
      items.Length == Pow2(capLog2) && capLog2 <= 30 && head <= tail <= head + items.Length
    }

    ghost function Contents(): (s: seq<T>)
      reads this, items
      requires Valid()
      ensures |s| == tail - head
    {
      Ring(items[..], capLog2, head, tail - head)
    }

    /** What a push that copies nothing leaves in the n cells behind the tail. */
    ghost function Stale(n: nat): (s: seq<T>)
      reads this, items
      requires Valid()
      ensures |s| == n
    {
      Ring(items[..], capLog2, tail, n)
    }

    /** spsc_queue_init */
    constructor (items: array<T>, numItemsLog2: nat)
      requires numItemsLog2 <= 30 && items.Length == Pow2(numItemsLog2)
      ensures Valid() && this.items == items && capLog2 == numItemsLog2 && Contents() == []
    {
      this.items, capLog2 := items, numItemsLog2;
      head, tail := 0, 0;
    }

    /** spsc_queue_capacity */
    function Capacity(): nat { Pow2(capLog2) }

    /** spsc_queue_size */
    method Size() returns (n: nat)
      requires Valid()
      ensures n == |Contents()| <= Capacity()
    {
      n := tail - head;
    }

    /** spsc_queue_push */
    method Push(src: array?<T>) returns (ok: bool)
      requires Valid() && (src != null ==> src.Length > 0 && src != items)
      modifies this`tail, items
      ensures Valid() && ok == (old(|Contents()|) < Capacity())
      ensures ok ==> Contents() == old(Contents()) + [if src == null then old(Stale(1)[0]) else src[0]]
      ensures !ok ==> unchanged(this) && unchanged(items)
    {
      var used := tail - head;
      if used == Pow2(capLog2) {
        return false;
      }
      RingSplit(items[..], capLog2, head, used, 1);
      if src != null {
        RingStore(items[..], capLog2, head, used, src[0]);
        items[Slot(tail, capLog2)] := src[0];
      }
      tail := tail + 1;
      ok := true;
    }

    /** spsc_queue_multi_push: all items of arr, or none */
    method MultiPush(arr: array?<T>, num: nat) returns (ok: bool)
      requires Valid() && (arr != null ==> num <= arr.Length && arr != items)
      modifies this`tail, items
      ensures Valid() && ok == (old(|Contents()|) + num <= Capacity())
      ensures ok ==> Contents() == old(Contents()) + if arr == null then old(Stale(num)) else arr[..num]
      ensures !ok ==> unchanged(this) && unchanged(items)
    {
      var used := tail - head;
      if used + num > Pow2(capLog2) {
        return false;
      }
      RingSplit(items[..], capLog2, head, used, num);
      if arr != null {
        ghost var before := Contents();
        for i := 0 to num
          invariant tail == head + used
          invariant Ring(items[..], capLog2, head, used + i) == before + arr[..i]
        {
          RingStore(items[..], capLog2, head, used + i, arr[i]);
          items[Slot(tail + i, capLog2)] := arr[i];
        }
      }
      tail := tail + num;
      ok := true;
    }

    /** spsc_queue_pop */
    method Pop(dst: array?<T>) returns (ok: bool)
      requires Valid() && (dst != null ==> dst.Length > 0 && dst != items)
      modifies this`head, if dst == null then {} else {dst}
      ensures Valid() && ok == (old(Contents()) != [])
      ensures ok ==> Contents() == old(Contents())[1..]
      ensures ok && dst != null ==> dst[0] == old(Contents())[0] && dst[1..] == old(dst[1..])
      ensures !ok ==> unchanged(this) && (dst != null ==> unchanged(dst))
    {
      var used := tail - head;
      if used == 0 {
        return false;
      }
      RingSplit(items[..], capLog2, head, 1, used - 1);
      if dst != null {
        dst[0] := items[Slot(head, capLog2)];
      }
      head := head + 1;
      ok := true;
    }

    /** spsc_queue_multi_pop: num items, or none */
    method MultiPop(arr: array?<T>, num: nat) returns (ok: bool)
      requires Valid() && (arr != null ==> num <= arr.Length && arr != items)
      modifies this`head, if arr == null then {} else {arr}
      ensures Valid() && ok == (num <= old(|Contents()|))
      ensures ok ==> Contents() == old(Contents())[num..]
      ensures ok && arr != null ==> arr[..num] == old(Contents())[..num] && arr[num..] == old(arr[num..])
      ensures !ok ==> unchanged(this) && (arr != null ==> unchanged(arr))
    {
      var used := tail - head;
      if used < num {
        return false;
      }
      RingSplit(items[..], capLog2, head, num, used - num);
      if arr != null {
        for i := 0 to num
          invariant head == old(head)
          invariant forall j :: 0 <= j < i ==> arr[j] == items[Slot(head + j, capLog2)]
          invariant arr[num..] == old(arr[num..])
        {
          arr[i] := items[Slot(head + i, capLog2)];
        }
      }
      head := head + num;
      ok := true;
    }

    /** spsc_queue_peek_0 and spsc_queue_peek_1: the items are all there, in order, and nothing changes. */
    method Peek() returns (first: Region, second: Region)
      requires Valid()
      ensures InArray(first, items.Length) && InArray(second, items.Length)
      ensures Content(items[..], first) + Content(items[..], second) == Contents()
      ensures first.num == 0 <==> Contents() == []
      ensures first.src == if Contents() == [] then None else Some(head % items.Length)
      ensures second.src ==
              if Contents() == [] || head % items.Length + |Contents()| < items.Length then None else Some(0)
    {
      first, second := Peek0(capLog2, head, tail), Peek1(capLog2, head, tail);
      Snapshot(items[..], capLog2, head, tail);
      PeekNums(capLog2, head, tail);
      SlotIsRemainder(head, capLog2);
      SlotAhead(head, tail - head, capLog2);
    }
  }
}
