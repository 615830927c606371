/** The reuse buffer of Code/reusebuffer.hh and Code/reusebuffer.cc: a FIFO
    memo table of completed instructions, keyed by the instruction's PC and
    its operand values, each entry holding the vector of results. */
module VectorReuseBuffer {
  import opened MachineTypes
  import opened Wrappers

  /** Capacity of the buffer (REUSE_BUFFER_SIZE). */
  const REUSE_BUFFER_SIZE: nat := 1024

  /** One memoised instruction: its PC, its operand values, its results and
      the number of results `getResults` copies out. */
  datatype Entry = Entry(pc: Addr, operands: seq<RegVal>, results: seq<RegVal>, resultCount: nat)

  /** The invariant the C++ constructor of `Entry` establishes. */
  predicate WellFormed(e: Entry) {
    e.resultCount == |e.results|
  }

  /** The constructor `Entry(_pc, _operands, _results)`. */
  function MakeEntry(pc: Addr, operands: seq<RegVal>, results: seq<RegVal>): (e: Entry)
    ensures e.pc == pc && e.operands == operands && e.results == results
    ensures WellFormed(e)
  {
    Entry(pc, operands, results, |results|)
  }

  /** An entry answers for (pc, operands) when it was recorded for exactly that key. */
  predicate Matches(e: Entry, pc: Addr, operands: seq<RegVal>) {
    e.pc == pc && e.operands == operands
  }

  predicate AnyMatch(buf: seq<Entry>, pc: Addr, operands: seq<RegVal>) {
    exists i :: 0 <= i < |buf| && Matches(buf[i], pc, operands)
  }

  /** Index of the oldest entry that matches, as `std::find_if` finds it. */
  function FirstMatch(buf: seq<Entry>, pc: Addr, operands: seq<RegVal>): (r: Option<nat>)
    ensures r.Some? ==> r.value < |buf| && Matches(buf[r.value], pc, operands)
    ensures r.Some? ==> forall j :: 0 <= j < r.value ==> !Matches(buf[j], pc, operands)
    ensures r.None? <==> !AnyMatch(buf, pc, operands)
  {
    if buf == [] then None
    else if Matches(buf[0], pc, operands) then Some(0)
    else match FirstMatch(buf[1..], pc, operands)
      case None =>
        assert forall j :: 1 <= j < |buf| ==> buf[j] == buf[1..][j - 1];
        None
      case Some(k) => Some(k + 1)
  }

  /** What `contains` answers: never for an empty buffer or an empty operand
      list, otherwise whether some entry matches. */
  predicate ContainsKey(buf: seq<Entry>, pc: Addr, operands: seq<RegVal>) {
    buf != [] && operands != [] && AnyMatch(buf, pc, operands)
  }

  predicate AllWellFormed(buf: seq<Entry>) {
    forall e :: e in buf ==> WellFormed(e)
  }

  /** What `getResults` returns: the first `result_count` results of the
      oldest matching entry, or nothing on a miss. */
  function Lookup(buf: seq<Entry>, pc: Addr, operands: seq<RegVal>): seq<RegVal>
    requires AllWellFormed(buf)
  {
    match FirstMatch(buf, pc, operands)
    case None => []
    case Some(i) =>
      assert buf[i] in buf;
      buf[i].results[..buf[i].resultCount]
  }

  /** The buffer after `insert`: drop the front when full, append at the back. */
  function Inserted(buf: seq<Entry>, e: Entry): seq<Entry> {
    (if buf != [] && |buf| >= REUSE_BUFFER_SIZE then buf[1..] else buf) + [e]
  }

  class ReuseBuffer {
    /** The `std::deque<Entry> buffer`, oldest entry first. */
    var buffer: seq<Entry>

    ghost predicate Valid()
      reads this
    {
      |buffer| <= REUSE_BUFFER_SIZE && AllWellFormed(buffer)
    }

    constructor ()
      ensures Valid() && buffer == []
    {
      buffer := [];
    }

    /** `isMatch`: compares the PC, the operand count, then each operand. */
    method IsMatch(entry: Entry, pc: Addr, operands: seq<RegVal>) returns (m: bool)
      ensures m <==> Matches(entry, pc, operands)
    {
      if entry.pc != pc {
        return false;
      }
      if |entry.operands| != |operands| {
        return false;
      }
      var i := 0;
      while i < |operands|
        invariant i <= |operands|
        invariant forall k :: 0 <= k < i ==> entry.operands[k] == operands[k]
      {
        if entry.operands[i] != operands[i] {
          return false;
        }
        i := i + 1;
      }
      return true;
    }

    /** `contains`: the empty-buffer / empty-operands guard, then `std::any_of`. */
    method Contains(pc: Addr, operands: seq<RegVal>) returns (found: bool)
      ensures found <==> ContainsKey(buffer, pc, operands)
    {
      if |buffer| == 0 || |operands| == 0 {
        return false;
      }
      var i := 0;
      while i < |buffer|
        invariant i <= |buffer|
        invariant forall j :: 0 <= j < i ==> !Matches(buffer[j], pc, operands)
      {
        var m := IsMatch(buffer[i], pc, operands);
        if m {
          return true;
        }
        i := i + 1;
      }
      return false;
    }

    /** `getResults`: `std::find_if` for the oldest match, then copy its
        first `result_count` results into a fresh vector. */
    method GetResults(pc: Addr, operands: seq<RegVal>) returns (regResults: seq<RegVal>)
      requires Valid()
      ensures regResults == Lookup(buffer, pc, operands)
    {
      var it := 0;
      var hit := false;
      while it < |buffer| && !hit
        invariant it <= |buffer|
        invariant hit ==> it < |buffer| && Matches(buffer[it], pc, operands)
        invariant forall j :: 0 <= j < it ==> !Matches(buffer[j], pc, operands)
        decreases |buffer| - it, !hit
      {
        hit := IsMatch(buffer[it], pc, operands);
        if !hit {
          it := it + 1;
        }
      }
      if hit {
        var matched := buffer[it];
        assert matched in buffer;
        regResults := [];
        var i := 0;
        while i < matched.resultCount
          invariant i <= matched.resultCount
          invariant regResults == matched.results[..i]
        {
          regResults := regResults + [matched.results[i]];
          i := i + 1;
        }
      } else {
        regResults := [];
      }
    }

    /** `insert`: evict the oldest entry when full, then append the new one. */
    method Insert(pc: Addr, operands: seq<RegVal>, results: seq<RegVal>)
      requires Valid()
      modifies this
      ensures Valid()
      ensures buffer == Inserted(old(buffer), MakeEntry(pc, operands, results))
    {
      var newEntry := MakeEntry(pc, operands, results);
      if |buffer| != 0 && |buffer| >= REUSE_BUFFER_SIZE {
        buffer := buffer[1..];
      }
      buffer := buffer + [newEntry];
    }
  }

  /** A hit yields exactly the stored results of the oldest matching entry. */
  lemma LookupIsOldestResults(buf: seq<Entry>, pc: Addr, operands: seq<RegVal>)
    requires AllWellFormed(buf)
    ensures !AnyMatch(buf, pc, operands) ==> Lookup(buf, pc, operands) == []
    ensures AnyMatch(buf, pc, operands) ==>
      exists i :: 0 <= i < |buf| && Matches(buf[i], pc, operands) &&
        (forall j :: 0 <= j < i ==> !Matches(buf[j], pc, operands)) &&
        Lookup(buf, pc, operands) == buf[i].results
  {
    var r := FirstMatch(buf, pc, operands);
    if r.Some? {
      assert buf[r.value] in buf;
    }
  }

  /** Insertion keeps the capacity bound; below capacity it appends, at
      capacity it evicts exactly the front entry, keeping the rest in order. */
  lemma InsertedShape(buf: seq<Entry>, e: Entry)
    requires |buf| <= REUSE_BUFFER_SIZE
    ensures |Inserted(buf, e)| <= REUSE_BUFFER_SIZE
    ensures |buf| < REUSE_BUFFER_SIZE ==> Inserted(buf, e) == buf + [e] && |Inserted(buf, e)| == |buf| + 1
    ensures |buf| == REUSE_BUFFER_SIZE ==> Inserted(buf, e) == buf[1..] + [e]
    ensures Inserted(buf, e)[|Inserted(buf, e)| - 1] == e
  {
  }

  /** After inserting (pc, operands, results) with non-empty operands,
      `contains(pc, operands)` holds. */
  lemma InsertThenContains(buf: seq<Entry>, pc: Addr, operands: seq<RegVal>, results: seq<RegVal>)
    requires operands != []
    ensures ContainsKey(Inserted(buf, MakeEntry(pc, operands, results)), pc, operands)
  {
    var b := Inserted(buf, MakeEntry(pc, operands, results));
    assert Matches(b[|b| - 1], pc, operands);
  }

  /** With empty operands `contains` is false whatever was inserted. */
  lemma EmptyOperandsNeverContained(buf: seq<Entry>, pc: Addr)
    ensures !ContainsKey(buf, pc, [])
  {
  }

  /** A key not yet present reads back exactly the results just inserted. */
  lemma InsertThenLookupFresh(buf: seq<Entry>, pc: Addr, operands: seq<RegVal>, results: seq<RegVal>)
    requires AllWellFormed(buf)
    requires !AnyMatch(buf, pc, operands)
    ensures AllWellFormed(Inserted(buf, MakeEntry(pc, operands, results)))
    ensures Lookup(Inserted(buf, MakeEntry(pc, operands, results)), pc, operands) == results
  {
    var e := MakeEntry(pc, operands, results);
    var b := Inserted(buf, e);
    var kept := if buf != [] && |buf| >= REUSE_BUFFER_SIZE then buf[1..] else buf;
    assert b == kept + [e];
    assert forall j :: 0 <= j < |kept| ==> kept[j] in buf;
    assert Matches(b[|b| - 1], pc, operands);
  }

  /** FIFO lookup: while the oldest matching entry is not the one evicted, a
      further insert does not change what `getResults` returns, even when the
      new entry has the same key. */
  lemma InsertKeepsOldestHit(buf: seq<Entry>, e: Entry, pc: Addr, operands: seq<RegVal>)
    requires AllWellFormed(buf) && WellFormed(e)
    requires AnyMatch(buf, pc, operands)
    requires |buf| < REUSE_BUFFER_SIZE || !Matches(buf[0], pc, operands)
    ensures AllWellFormed(Inserted(buf, e))
    ensures Lookup(Inserted(buf, e), pc, operands) == Lookup(buf, pc, operands)
  {
    var i := FirstMatch(buf, pc, operands).value;
    var b := Inserted(buf, e);
    if buf != [] && |buf| >= REUSE_BUFFER_SIZE {
      assert i > 0;
      assert forall j :: 0 <= j < |buf| - 1 ==> b[j] == buf[j + 1];
      assert Matches(b[i - 1], pc, operands);
      assert FirstMatch(b, pc, operands) == Some(i - 1);
    } else {
      assert forall j :: 0 <= j < |buf| ==> b[j] == buf[j];
      assert Matches(b[i], pc, operands);
      assert FirstMatch(b, pc, operands) == Some(i);
    }
  }

  /** FIFO eviction: when the buffer is full and its only match is the
      front entry, inserting a different key forgets it. */
  lemma EvictionForgetsOldest(buf: seq<Entry>, e: Entry, pc: Addr, operands: seq<RegVal>)
    requires |buf| == REUSE_BUFFER_SIZE
    requires Matches(buf[0], pc, operands)
    requires forall j :: 0 < j < |buf| ==> !Matches(buf[j], pc, operands)
    requires !Matches(e, pc, operands)
    ensures !AnyMatch(Inserted(buf, e), pc, operands)
  {
    var b := Inserted(buf, e);
    assert forall j :: 0 <= j < |buf| - 1 ==> b[j] == buf[j + 1];
  }
}
