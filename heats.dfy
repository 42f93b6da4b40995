/** Heat partitioning: `make_heats` slices an entry list into consecutive heats. */
module Heats {
  import opened Wrappers
  import Arith

  /** `range(0, n, 0)` raises: a zero heat size cannot be sliced. */
  datatype Fault = ZeroHeatSize

  /** Consecutive chunks of `size` elements, the last one possibly shorter. */
  function Chunks<T>(s: seq<T>, size: nat): seq<seq<T>>
    requires size > 0
    decreases |s|
  {
    if |s| == 0 then []
    else if |s| <= size then [s]
    else [s[..size]] + Chunks(s[size..], size)
  }

  /** What `make_heats` returns when it returns: chunks for a positive size,
      and no heats for a negative one (`range` with a negative step is empty here). */
  function HeatsOf<T>(entries: seq<T>, size: int): seq<seq<T>> {
    if size > 0 then Chunks(entries, size) else []
  }

  function Flatten<T>(heats: seq<seq<T>>): seq<T> {
    if heats == [] then [] else heats[0] + Flatten(heats[1..])
  }

  function Min(a: int, b: int): int {
    if a <= b then a else b
  }

  /** `make_heats(entries, max_heat_size)` */
  method MakeHeats<T>(entries: seq<T>, maxHeatSize: int) returns (r: Result<seq<seq<T>>, Fault>)
    ensures r.Failure? <==> maxHeatSize == 0
    ensures r.Success? ==> r.value == HeatsOf(entries, maxHeatSize)
  {
    if maxHeatSize == 0 {
      return Failure(ZeroHeatSize);
    }
    var heats: seq<seq<T>> := [];
    if maxHeatSize > 0 {
      var i := 0;
      while i < |entries|
        invariant 0 <= i
        invariant heats + Chunks(entries[Min(i, |entries|)..], maxHeatSize) == Chunks(entries, maxHeatSize)
        decreases |entries| - i
      {
        var hi := Min(i + maxHeatSize, |entries|);
        var rest := entries[i..];
        if hi == |entries| {
          assert entries[i..hi] == rest;
          assert entries[hi..] == [];
        } else {
          assert entries[i..hi] == rest[..maxHeatSize];
          assert entries[hi..] == rest[maxHeatSize..];
        }
        heats := heats + [entries[i..hi]];
        i := i + maxHeatSize;
      }
      assert entries[|entries|..] == [];
    }
    return Success(heats);
  }

  /** Concatenating the heats in order gives back the entry list. */
  lemma {:induction false} ChunksFlatten<T>(s: seq<T>, size: nat)
    requires size > 0
    ensures Flatten(Chunks(s, size)) == s
    decreases |s|
  {
    if |s| > size {
      ChunksFlatten(s[size..], size);
      var c := Chunks(s, size);
      assert c[1..] == Chunks(s[size..], size);
      assert s[..size] + s[size..] == s;
    } else if |s| > 0 {
      assert [s][1..] == [];
      assert s + [] == s;
    }
  }

  /** There are ceil(n / size) heats; none for no entries. */
  lemma {:induction false} ChunksCount<T>(s: seq<T>, size: nat)
    requires size > 0
    ensures |Chunks(s, size)| == (|s| + size - 1) / size
    ensures Chunks(s, size) == [] <==> s == []
    decreases |s|
  {
    if |s| > size {
      ChunksCount(s[size..], size);
      Arith.DivShift(|s| - 1, size);
      assert |s| - size + size - 1 == |s| - 1;
    } else if |s| > 0 {
      Arith.DivUnique(|s| + size - 1, size, 1, |s| - 1);
    } else {
      Arith.DivUnique(size - 1, size, 0, size - 1);
    }
  }

  /** Every heat is non-empty and holds at most `size` entries; all but the last hold exactly `size`. */
  lemma {:induction false} ChunksSizes<T>(s: seq<T>, size: nat)
    requires size > 0
    ensures forall i :: 0 <= i < |Chunks(s, size)| ==> 0 < |Chunks(s, size)[i]| <= size
    ensures forall i :: 0 <= i < |Chunks(s, size)| - 1 ==> |Chunks(s, size)[i]| == size
    ensures |Chunks(s, size)| > 0 ==>
      |Chunks(s, size)[|Chunks(s, size)| - 1]| == |s| - (|Chunks(s, size)| - 1) * size
    decreases |s|
  {
    if |s| > size {
      ChunksSizes(s[size..], size);
      var c, c' := Chunks(s, size), Chunks(s[size..], size);
      assert forall i :: 1 <= i < |c| ==> c[i] == c'[i - 1];
      assert (|c| - 1) * size == (|c'| - 1) * size + size;
    }
  }

  /** Entry `p` sits in heat `p / size` at place `p % size`: each entry is in exactly
      one heat, at its original relative position. */
  lemma {:induction false} ChunksPosition<T>(s: seq<T>, size: nat, p: nat)
    requires size > 0 && p < |s|
    ensures p / size < |Chunks(s, size)|
    ensures p % size < |Chunks(s, size)[p / size]|
    ensures Chunks(s, size)[p / size][p % size] == s[p]
    decreases |s|
  {
    if |s| > size {
      if p >= size {
        ChunksPosition(s[size..], size, p - size);
        Arith.DivShift(p - size, size);
      } else {
        Arith.DivUnique(p, size, 0, p);
      }
    } else {
      Arith.DivUnique(p, size, 0, p);
    }
  }
}
