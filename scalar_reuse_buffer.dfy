/** The older reuse buffer of Code/reuse_buffer.hh and Code/reuse_buffer.cpp:
    the same FIFO memo table, with a capacity of 128 and one result per
    entry. The PC is a `PCStateBase`, of which only equality is used, so it
    is a type parameter `P` here. */
module ScalarReuseBuffer {
  import opened MachineTypes
  import opened Wrappers

  /** Capacity of the buffer (REUSE_BUFFER_SIZE). */
  const REUSE_BUFFER_SIZE: nat := 128

  /** One memoised instruction: its PC state, its operand values and its result. */
  datatype Entry<P> = Entry(pc: P, operands: seq<RegVal>, result: RegVal)

  /** An entry answers for (pc, operands) when it was recorded for exactly that key. */
  predicate Matches<P(==)>(e: Entry<P>, pc: P, operands: seq<RegVal>) {
    e.pc == pc && e.operands == operands
  }

  predicate AnyMatch<P(==)>(buf: seq<Entry<P>>, pc: P, operands: seq<RegVal>) {
    exists i :: 0 <= i < |buf| && Matches(buf[i], pc, operands)
  }

  /** Index of the oldest entry that matches, as `std::find_if` finds it. */
  function FirstMatch<P(==)>(buf: seq<Entry<P>>, pc: P, operands: seq<RegVal>): (r: Option<nat>)
    ensures r.Some? ==> r.value < |buf| && Matches(buf[r.value], pc, operands)
    ensures r.Some? ==> forall j :: 0 <= j < r.value ==> !Matches(buf[j], pc, operands)
    ensures r.None? <==> !AnyMatch(buf, pc, operands)
  {
    if buf == [] then None
    else if Matches(buf[0], pc, operands) then Some(0)
    else match FirstMatch(buf[1..], pc, operands)
      case None =>
        assert forall j :: 1 <= j < |buf| ==> buf[j] == buf[1..][j - 1];
        None
      case Some(k) => Some(k + 1)
  }

  /** What `getResult` returns: the result of the oldest matching entry, or
      0 on a miss. */
  function Lookup<P(==)>(buf: seq<Entry<P>>, pc: P, operands: seq<RegVal>): RegVal {
    match FirstMatch(buf, pc, operands)
    case None => 0
    case Some(i) => buf[i].result
  }

  /** The buffer after `insert`: drop the front when full, append at the back. */
  function Inserted<P>(buf: seq<Entry<P>>, e: Entry<P>): seq<Entry<P>> {
    (if |buf| >= REUSE_BUFFER_SIZE then buf[1..] else buf) + [e]
  }

  class ReuseBuffer<P(==)> {
    /** The `std::deque<Entry> buffer`, oldest entry first. */
    var buffer: seq<Entry<P>>

    ghost predicate Valid()
      reads this
    {
      |buffer| <= REUSE_BUFFER_SIZE
    }

    constructor ()
      ensures Valid() && buffer == []
    {
      buffer := [];
    }

    /** `isMatch`: compares the PC, the operand count, then each operand. */
    method IsMatch(entry: Entry<P>, pc: P, operands: seq<RegVal>) returns (m: bool)
      ensures m <==> Matches(entry, pc, operands)
    {
      if entry.pc != pc {
        return false;
      }
      if |entry.operands| != |operands| {
        return false;
      }
      var i := 0;
      while i < |operands|
        invariant i <= |operands|
        invariant forall k :: 0 <= k < i ==> entry.operands[k] == operands[k]
      {
        if entry.operands[i] != operands[i] {
          return false;
        }
        i := i + 1;
      }
      return true;
    }

    /** `contains`: `std::any_of` over the buffer, with no guard on the operands. */
    method Contains(pc: P, operands: seq<RegVal>) returns (found: bool)
      ensures found <==> AnyMatch(buffer, pc, operands)
    {
      var i := 0;
      while i < |buffer|
        invariant i <= |buffer|
        invariant forall j :: 0 <= j < i ==> !Matches(buffer[j], pc, operands)
      {
        var m := IsMatch(buffer[i], pc, operands);
        if m {
          return true;
        }
        i := i + 1;
      }
      return false;
    }

    /** `getResult`: `std::find_if` for the oldest match; its result, or 0. */
    method GetResult(pc: P, operands: seq<RegVal>) returns (result: RegVal)
      ensures result == Lookup(buffer, pc, operands)
    {
      var it := 0;
      var hit := false;
      while it < |buffer| && !hit
        invariant it <= |buffer|
        invariant hit ==> it < |buffer| && Matches(buffer[it], pc, operands)
        invariant forall j :: 0 <= j < it ==> !Matches(buffer[j], pc, operands)
        decreases |buffer| - it, !hit
      {
        hit := IsMatch(buffer[it], pc, operands);
        if !hit {
          it := it + 1;
        }
      }
      if hit {
        result := buffer[it].result;
      } else {
        result := 0;
      }
    }

    /** `insert`: evict the oldest entry when full, then append the new one. */
    method Insert(pc: P, operands: seq<RegVal>, result: RegVal)
      requires Valid()
      modifies this
      ensures Valid()
      ensures buffer == Inserted(old(buffer), Entry(pc, operands, result))
    {
      var newEntry := Entry(pc, operands, result);
      if |buffer| >= REUSE_BUFFER_SIZE {
        buffer := buffer[1..];
      }
      buffer := buffer + [newEntry];
    }
  }

  /** A hit yields the result of the oldest matching entry; a miss yields 0. */
  lemma LookupIsOldestResult<P>(buf: seq<Entry<P>>, pc: P, operands: seq<RegVal>)
    ensures !AnyMatch(buf, pc, operands) ==> Lookup(buf, pc, operands) == 0
    ensures AnyMatch(buf, pc, operands) ==>
      exists i :: 0 <= i < |buf| && Matches(buf[i], pc, operands) &&
        (forall j :: 0 <= j < i ==> !Matches(buf[j], pc, operands)) &&
        Lookup(buf, pc, operands) == buf[i].result
  {
    var r := FirstMatch(buf, pc, operands);
    if r.Some? {
      assert Matches(buf[r.value], pc, operands);
    }
  }

  /** Insertion keeps the capacity bound; below capacity it appends, at
      capacity it evicts exactly the front entry, keeping the rest in order. */
  lemma InsertedShape<P>(buf: seq<Entry<P>>, e: Entry<P>)
    requires |buf| <= REUSE_BUFFER_SIZE
    ensures |Inserted(buf, e)| <= REUSE_BUFFER_SIZE
    ensures |buf| < REUSE_BUFFER_SIZE ==> Inserted(buf, e) == buf + [e] && |Inserted(buf, e)| == |buf| + 1
    ensures |buf| == REUSE_BUFFER_SIZE ==> Inserted(buf, e) == buf[1..] + [e]
    ensures Inserted(buf, e)[|Inserted(buf, e)| - 1] == e
  {
  }

  /** After inserting (pc, operands, result), `contains(pc, operands)` holds,
      for empty operand lists too. */
  lemma InsertThenContains<P>(buf: seq<Entry<P>>, pc: P, operands: seq<RegVal>, result: RegVal)
    ensures AnyMatch(Inserted(buf, Entry(pc, operands, result)), pc, operands)
  {
    var b := Inserted(buf, Entry(pc, operands, result));
    assert Matches(b[|b| - 1], pc, operands);
  }

  /** A key not yet present reads back exactly the result just inserted. */
  lemma InsertThenLookupFresh<P>(buf: seq<Entry<P>>, pc: P, operands: seq<RegVal>, result: RegVal)
    requires !AnyMatch(buf, pc, operands)
    ensures Lookup(Inserted(buf, Entry(pc, operands, result)), pc, operands) == result
  {
    var e := Entry(pc, operands, result);
    var b := Inserted(buf, e);
    var kept := if |buf| >= REUSE_BUFFER_SIZE then buf[1..] else buf;
    assert b == kept + [e];
    assert forall j :: 0 <= j < |kept| ==> kept[j] in buf;
    assert Matches(b[|b| - 1], pc, operands);
  }

  /** FIFO lookup: while the oldest matching entry is not the one evicted, a
      further insert does not change what `getResult` returns. */
  lemma InsertKeepsOldestHit<P>(buf: seq<Entry<P>>, e: Entry<P>, pc: P, operands: seq<RegVal>)
    requires AnyMatch(buf, pc, operands)
    requires |buf| < REUSE_BUFFER_SIZE || !Matches(buf[0], pc, operands)
    ensures Lookup(Inserted(buf, e), pc, operands) == Lookup(buf, pc, operands)
  {
    var i := FirstMatch(buf, pc, operands).value;
    var b := Inserted(buf, e);
    if |buf| >= REUSE_BUFFER_SIZE {
      assert i > 0;
      assert forall j :: 0 <= j < |buf| - 1 ==> b[j] == buf[j + 1];
      assert Matches(b[i - 1], pc, operands);
      assert FirstMatch(b, pc, operands) == Some(i - 1);
    } else {
      assert forall j :: 0 <= j < |buf| ==> b[j] == buf[j];
      assert Matches(b[i], pc, operands);
      assert FirstMatch(b, pc, operands) == Some(i);
    }
  }

  /** A stored result of 0 and a miss are indistinguishable to `getResult`. */
  lemma ZeroResultLooksLikeMiss<P>(pc: P, operands: seq<RegVal>)
    ensures Lookup(Inserted([], Entry(pc, operands, 0)), pc, operands) == Lookup([], pc, operands)
  {
    InsertThenLookupFresh([], pc, operands, 0);
  }
}
