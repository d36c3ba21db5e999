/** The flat array of cells behind a cache, and the back end's reads and writes of it. */
module Hoards {
  /** The size after a request that needs `need` cells. */
  function Grown(size: nat, need: nat): nat { if size < need then (size + need) * 2 else size }

  class Hoard {
    var cells: seq<int>
    ghost var puts: seq<Write>  // every write so far

    /** The hoard is what the writes so far make of an empty one. */
    ghost predicate Valid()
      reads this
    {
      |cells| == Size(puts) && forall i: nat :: Value(i) == LastWritten(puts, i)
    }

    constructor ()
      ensures Valid() && puts == []
    {
      cells, puts := [], [];
    }

    /** Cell `i` of the unbounded array the hoard stands for; cells never allocated hold zero. */
    ghost function Value(i: nat): int
      reads this`cells
    {
      if i < |cells| then cells[i] else 0
    }

    /** std::vector::resize to a larger size: the cells there are kept, new ones are zero. */
    method Resize(n: nat)
      requires n >= |cells|
      modifies this`cells
      ensures |cells| == n && forall i: nat :: Value(i) == old(Value(i))
    {
      cells := cells + seq(n - |cells|, _ => 0);
    }

    method Store(i: nat, v: int)
      requires i < |cells|
      modifies this`cells
      ensures |cells| == old(|cells|) && forall j: nat :: Value(j) == if j == i then v else old(Value(j))
    {
      cells := cells[i := v];
    }

    method Put(src: seq<int>, count: nat, offset: nat) returns (n: nat)
      requires Valid() && count <= |src|
      modifies this
      ensures Valid() && puts == old(puts) + [Write(offset, src[..count])]
      ensures n == count
      ensures |cells| == if old(|cells|) < offset + count then 2 * (old(|cells|) + offset + count) else old(|cells|)
      ensures forall i: nat :: Value(i) == if offset <= i < offset + count then src[i - offset] else old(Value(i))
    {
      if |cells| < offset + count {
        Resize((|cells| + offset + count) * 2);
      }
      var i := 0;
      ghost var size := |cells|;
      while i < count
        invariant 0 <= i <= count && |cells| == size && puts == old(puts)
        invariant forall j: nat :: Value(j) == if offset <= j < offset + i then src[j - offset] else old(Value(j))
      {
        Store(offset + i, src[i]);
        i := i + 1;
      }
      puts := puts + [Write(offset, src[..count])];
      Appended(old(puts), Write(offset, src[..count]));
      n := count;
    }

    method Get(dest: array<int>, count: nat, offset: nat) returns (n: nat)
      requires count <= dest.Length && offset + count <= |cells|
      modifies dest
      ensures n == count && forall i :: 0 <= i < count ==> dest[i] == Value(offset + i)
      ensures forall i :: count <= i < dest.Length ==> dest[i] == old(dest[i])
    {
      var i := 0;
      while i < count
        invariant 0 <= i <= count && forall j :: 0 <= j < i ==> dest[j] == Value(offset + j)
        invariant forall j :: count <= j < dest.Length ==> dest[j] == old(dest[j])
      {
        dest[i] := cells[offset + i];
        i := i + 1;
      }
      n := count;
    }
  }

  /** A cache of the dummy back end, made by its create function. */
  class Context {
    const h: Hoard
    var locked: bool

    constructor ()
      ensures fresh(h) && h.Valid() && h.puts == [] && !locked
    {
      h := new Hoard();
      locked := false;
    }

    /** dummy_io: `bytes` is a byte count, rounded down to whole cells; only writes take the lock. */
    method Io(bytes: nat, offset: nat, scratch: array<int>, write: bool) returns (n: nat)
      requires h.Valid() && !locked && bytes / 8 <= scratch.Length && (!write ==> offset + bytes / 8 <= |h.cells|)
      modifies this, h, scratch
      ensures h.Valid() && n == bytes / 8 && !locked
      ensures write ==>
        && scratch[..] == old(scratch[..]) && h.puts == old(h.puts) + [Write(offset, scratch[..n])]
        && |h.cells| == Grown(old(|h.cells|), offset + n)
        && forall i: nat :: h.Value(i) == if offset <= i < offset + n then scratch[i - offset] else old(h.Value(i))
      ensures !write ==>
        && h.cells == old(h.cells) && h.puts == old(h.puts)
        && (forall i :: 0 <= i < n ==> scratch[i] == h.Value(offset + i))
    {
      if write {
        locked := true;
        n := h.Put(scratch[..], bytes / 8, offset);
        locked := false;
      } else {
        n := h.Get(scratch, bytes / 8, offset);
      }
    }
  }

  // ---------- whole runs of writes ----------

  datatype Write = Write(offset: nat, data: seq<int>)

  function Need(w: Write): nat { w.offset + |w.data| }

  /** The size after a run of writes on an empty hoard. */
  ghost function Size(ws: seq<Write>): nat {
    if ws == [] then 0 else Grown(Size(ws[..|ws| - 1]), Need(ws[|ws| - 1]))
  }

  /** The value last written to cell `i`, or zero. */
  ghost function LastWritten(ws: seq<Write>, i: nat): int {
    if ws == [] then 0
    else var w := ws[|ws| - 1];
         if w.offset <= i < Need(w) then w.data[i - w.offset] else LastWritten(ws[..|ws| - 1], i)
  }

  ghost function Peak(ws: seq<Write>): nat {
    if ws == [] then 0
    else var p := Peak(ws[..|ws| - 1]);
         if Need(ws[|ws| - 1]) > p then Need(ws[|ws| - 1]) else p
  }

  /** Cells moved by all growths together. */
  ghost function Copied(ws: seq<Write>): nat {
    if ws == [] then 0
    else var r := ws[..|ws| - 1];
         Copied(r) + if Size(r) < Need(ws[|ws| - 1]) then Size(r) else 0
  }

  lemma Appended(ws: seq<Write>, w: Write)
    ensures Size(ws + [w]) == Grown(Size(ws), Need(w))
    ensures forall i: nat :: LastWritten(ws + [w], i)
              == if w.offset <= i < Need(w) then w.data[i - w.offset] else LastWritten(ws, i)
  {
    assert (ws + [w])[..|ws + [w]| - 1] == ws;
  }

  /** An index inside some request is inside the hoard, whose size is below four times the largest request, and all
      growths
      together have copied less than a third of the current size. */
  lemma {:induction false} RunBounds(ws: seq<Write>)
    ensures Peak(ws) <= Size(ws) && (Size(ws) > 0 ==> Size(ws) < 4 * Peak(ws))
    ensures Size(ws) > 0 ==> 3 * Copied(ws) < Size(ws)
    ensures Size(ws) == 0 ==> Copied(ws) == 0
  {
    if ws != [] { RunBounds(ws[..|ws| - 1]); }
  }

  /** The size never shrinks, and a growth more than quadruples it. */
  lemma {:induction false} RunGrows(ws: seq<Write>, k: nat)
    requires k <= |ws|
    ensures Size(ws[..k]) <= Size(ws) && (Size(ws[..k]) != Size(ws) ==> Size(ws) > 4 * Size(ws[..k]))
    decreases |ws|
  {
    if k == |ws| {
      assert ws[..k] == ws;
    } else {
      var r := ws[..|ws| - 1];
      RunGrows(r, k);
      assert r[..k] == ws[..k];
    }
  }
}
