/** ringbuffer.c: the console keeps its last lines in a ring. */
module RingBuffer {
  import opened Bits

  /** The last `n` lines, or all of them. */
  ghost function Last<T>(lines: seq<T>, n: nat): seq<T>
  {
    if |lines| <= n then lines else lines[|lines| - n..]
  }

  /** The i-th slot from `head` on, going round. */
  function Slot(head: nat, size: nat, i: nat): nat
  {
    if head + i < size then head + i else head + i - size
  }

  /** The index reduced to the size. */
  function Wrap(i: nat, size: nat): (w: nat)
    requires size > 0
    ensures w < size
  {
    i % size
  }

  /** From head to tail lie the last lines in order; the ring starts at slot 0 until it is full. */
  ghost predicate Holding<T>(data: seq<T>, size: nat, head: nat, tail: nat, lines: seq<T>)
  {
    && head < size <= |data| && lines != [] && (|lines| < size ==> head == 0)
    && var kept := Last(lines, size);
    && tail == Slot(head, size, |kept| - 1)
    && forall i :: 0 <= i < |kept| ==> data[Slot(head, size, i)] == kept[i]
  }

  lemma PutFirst<T>(data: seq<T>, size: nat, item: T)
    requires 1 <= size <= |data|
    ensures Holding(data[0 := item], size, 0, 0, [item])
  {
  }

  /** While there is room, head stays and tail moves on. */
  lemma PutGrow<T>(data: seq<T>, size: nat, tail: nat, lines: seq<T>, item: T)
    requires Holding(data, size, 0, tail, lines) && tail < size - 1
    ensures |lines| < size && Holding(data[tail + 1 := item], size, 0, tail + 1, lines + [item])
  {
    var kept := Last(lines, size);
    forall i | 0 <= i < |kept| ensures data[tail + 1 := item][i] == kept[i] {
      assert data[Slot(0, size, i)] == kept[i];
    }
  }

  /** In a full ring the newest line takes the slot of the oldest. */
  lemma PutWrap<T>(data: seq<T>, size: nat, head: nat, tail: nat, lines: seq<T>, item: T)
    requires Holding(data, size, head, tail, lines) && (head > 0 || tail >= size - 1)
    ensures Wrap(tail + 1, size) == head < |data|
    ensures Holding(data[head := item], size, Wrap(head + 1, size), head, lines + [item])
  {
    NextSlot(head, size);
    NextSlot(tail, size);
    var kept, kept1 := Last(lines, size), Last(lines + [item], size);
    assert |kept| == size && kept1 == kept[1..] + [item];
    var head1 := Slot(head, size, 1);
    forall i | 0 <= i < size ensures data[head := item][Slot(head1, size, i)] == kept1[i] {
      if i < size - 1 {
        assert Slot(head1, size, i) == Slot(head, size, i + 1);
        assert data[Slot(head, size, i + 1)] == kept[i + 1];
      }
    }
  }

  lemma NextSlot(x: nat, size: nat)
    requires x < size
    ensures Wrap(x + 1, size) == Slot(x, size, 1)
  {
    if x + 1 < size {
      QuotientRemainder(x + 1, size, 0, x + 1);
    } else {
      QuotientRemainder(x + 1, size, 1, 0);
    }
  }

  /** The loop condition of ringbuffer_for_each tells exactly when lines are left. */
  lemma LoopGoesOn<T>(data: seq<T>, size: nat, head: nat, tail: nat, lines: seq<T>, v: nat)
    requires Holding(data, size, head, tail, lines) && v < |Last(lines, size)|
    ensures var idx, left := Slot(head, size, v) + 1, v + 1 < |Last(lines, size)|;
            && (((tail > head && idx <= tail) || (tail < head && idx != head)) <==> left)
            && (left ==> Wrap(idx, size) == Slot(head, size, v + 1))
  {
    var k := |Last(lines, size)|;
    assert head > 0 ==> k == size;
    NextSlot(Slot(head, size, v), size);
  }

  lemma HoldingAt<T>(data: seq<T>, size: nat, head: nat, tail: nat, lines: seq<T>, v: nat)
    requires Holding(data, size, head, tail, lines) && v < |Last(lines, size)|
    ensures Slot(head, size, v) < size <= |data| && data[Slot(head, size, v)] == Last(lines, size)[v]
  {
  }

  lemma HoldingStart<T>(data: seq<T>, size: nat, head: nat, tail: nat, lines: seq<T>)
    requires Holding(data, size, head, tail, lines)
    ensures 0 < |Last(lines, size)| && Wrap(head, size) == Slot(head, size, 0)
  {
    QuotientRemainder(head, size, 0, head);
  }

  lemma Appended<T>(done: seq<T>, all: seq<T>)
    requires |done| < |all| && done == all[..|done|]
    ensures done + [all[|done|]] == all[..|done| + 1]
  {
  }

  class Ring {
    var head: int
    var tail: int
    const size: nat
    const data: array<string>
    /** Every line ever put. */
    ghost var lines: seq<string>

    ghost predicate Valid()
      reads this, data
    {
      && 1 <= size <= data.Length
      && (if lines == [] then head == -1 && tail == -1
          else head >= 0 && tail >= 0 && Holding(data[..], size, head, tail, lines))
    }

    constructor Init(data: array<string>, size: nat)
      requires 1 <= size <= data.Length
      ensures Valid() && lines == [] && this.data == data && this.size == size
    {
      this.data, this.size := data, size;
      head, tail, lines := -1, -1, [];
    }

    method Put(item: string)
      requires Valid()
      modifies this, data
      ensures Valid() && lines == old(lines) + [item]
    {
      hide Holding, Slot, Wrap;
      if head == tail && head == -1 {
        PutFirst(data[..], size, item);
        assert lines + [item] == [item];
        head := head + 1;
        tail := tail + 1;
      } else if head == 0 && tail < size - 1 {
        PutGrow(data[..], size, tail, lines, item);
        tail := tail + 1;
      } else {
        PutWrap(data[..], size, head, tail, lines, item);
        head := Wrap(head + 1, size);
        tail := Wrap(tail + 1, size);
      }
      ghost var was := data[..];
      data[tail] := item;
      assert data[..] == was[tail := item];
      lines := lines + [item];
    }

    /** The lines that ringbuffer_for_each hands to its function, in order. */
    method ForEach() returns (visited: seq<string>)
      requires Valid()
      ensures visited == Last(lines, size)
    {
      visited := [];
      if head == -1 || tail == -1 || size == 0 {
        return;
      }
      hide Holding, Slot, Last, Wrap;
      ghost var s := data[..];
      HoldingStart(s, size, head, tail, lines);
      var idx := head;
      var more := true;
      while more
        invariant |visited| <= |Last(lines, size)| && visited == Last(lines, size)[..|visited|]
        invariant more == (|visited| < |Last(lines, size)|)
        invariant idx >= 0 && (more ==> Wrap(idx, size) == Slot(head, size, |visited|))
        decreases |Last(lines, size)| - |visited|
      {
        HoldingAt(s, size, head, tail, lines, |visited|);
        LoopGoesOn(s, size, head, tail, lines, |visited|);
        idx := Wrap(idx, size);
        assert data[idx] == s[idx];
        Appended(visited, Last(lines, size));
        visited := visited + [data[idx]];
        idx := idx + 1;
        more := (tail > head && idx <= tail) || (tail < head && idx != head);
      }
    }
  }

  /** After any sequence of puts, the last lines are visited in the order they were put. */
  method PutThenVisit(data: array<string>, size: nat, items: seq<string>) returns (visited: seq<string>)
    requires 1 <= size <= data.Length
    modifies data
    ensures visited == Last(items, size)
  {
    hide Ring.Valid, Last;
    var ring := new Ring.Init(data, size);
    for i := 0 to |items|
      invariant ring.Valid() && ring.lines == items[..i] && ring.size == size && ring.data == data
    {
      ring.Put(items[i]);
      assert items[..i + 1] == items[..i] + [items[i]];
    }
    assert items[..|items|] == items;
    visited := ring.ForEach();
  }
}
