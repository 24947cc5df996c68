/** The spike emulation updated in place: the same bitmap and lists, with the links in a side table. */
module NextTable {
  import opened Words
  import opened Bitmaps
  import opened FreeSets
  import opened ListTable
  import opened ListLaws

  class NextTable {
    const freeBits: array<Word>
    const nextTable: array<Link>
    const head: array<Link>

    predicate Valid() {
      && freeBits.Length == 4096 && nextTable.Length == 262144 && head.Length == 8
      && freeBits as object != nextTable && freeBits as object != head && nextTable != head
    }

    /** The contents as a value. */
    function State(): (t: Table)
      requires Valid()
      reads freeBits, nextTable, head
      ensures Shape(t)
    {
      Table(freeBits[..], nextTable[..], head[..])
    }

    constructor ()
      ensures Valid() && fresh(freeBits) && fresh(nextTable) && fresh(head)
      ensures State() == Empty()
    {
      freeBits := new Word[4096](_ => 0);
      nextTable := new Link[262144](_ => 0);
      head := new Link[8](_ => NIL);
    }

    predicate IsFree(off: nat)
      requires Valid() && off < 262144
      reads freeBits
      ensures IsFree(off) <==> Has(freeBits[..], off)
    {
      Bit(freeBits[off / 64], off % 64)
    }

    /** A double retire is the one thing the caller must not do. */
    method Retire(c: nat, off: nat)
      requires Valid() && c < 8 && off < 262144 && !IsFree(off)
      modifies freeBits, nextTable, head
      ensures State() == ListTable.Retire(old(State()), c, off)
    {
      freeBits[off / 64] := Or(freeBits[off / 64], Mask(off % 64));
      var next := head[c];
      nextTable[off] := next;
      head[c] := off;
    }

    method Pop(c: nat) returns (r: Option<nat>)
      requires Valid() && c < 8 && (head[c] < 262144 || head[c] == NIL)
      modifies freeBits, nextTable, head
      ensures (State(), r) == ListTable.Pop(old(State()), c)
    {
      var off := head[c];
      if off == NIL {
        return None;
      }
      head[c] := nextTable[off];
      freeBits[off / 64] := AndNot(freeBits[off / 64], Mask(off % 64));
      return Some(off);
    }

    /** The interface's own drain: `n` pops, stopping at the first `None`. */
    method DrainInto(c: nat, buf: seq<nat>, n: nat) returns (out: seq<nat>)
      requires Valid() && c < 8 && Inv(State())
      modifies freeBits, nextTable, head
      ensures State() == PopMany(old(State()), c, n).0
      ensures out == buf + PopMany(old(State()), c, n).1
    {
      hide ListTable.Pop, Rep;
      out := buf;
      for i := 0 to n
        invariant Inv(State())
        invariant PopMany(State(), c, n - i).0 == PopMany(old(State()), c, n).0
        invariant out + PopMany(State(), c, n - i).1 == buf + PopMany(old(State()), c, n).1
      {
        ghost var t := State();
        PopKeepsInv(t, c);
        var r := Pop(c);
        assert PopMany(t, c, n - i) ==
          if r == None then (State(), [])
          else (PopMany(State(), c, n - i - 1).0, [r.value] + PopMany(State(), c, n - i - 1).1);
        match r
        case None =>
          assert out + [] == out;
          return;
        case Some(off) =>
          assert out + ([off] + PopMany(State(), c, n - i - 1).1) == (out + [off]) + PopMany(State(), c, n - i - 1).1;
          out := out + [off];
      }
      assert out + [] == out;
    }

    /** The interface's own flush: one retire per offset. */
    method FlushRun(c: nat, offs: seq<nat>)
      requires Valid() && c < 8 && Retirable(State(), offs)
      modifies freeBits, nextTable, head
      ensures InSegment(offs) && State() == RetireMany(old(State()), c, offs)
    {
      hide ListTable.Retire;
      for i := 0 to |offs|
        invariant Retirable(State(), offs[i..])
        invariant RetireMany(State(), c, offs[i..]) == RetireMany(old(State()), c, offs)
      {
        assert offs[i] == offs[i..][0];
        RetireKeepsRetirable(State(), c, offs[i..]);
        Retire(c, offs[i]);
        assert offs[i..][1..] == offs[i + 1..];
      }
    }
  }
}
