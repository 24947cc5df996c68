/** The base emulation updated in place: a bitmap, and lists threaded through the block bodies. */
module Intrusive {
  import opened Words
  import opened Bitmaps
  import opened FreeSets
  import opened IntrusiveTable

  class Intrusive {
    const arena: array<Byte>
    const freeBits: array<Word>
    const head: array<List.Link>

    predicate Valid() {
      && arena.Length == 4194304 && freeBits.Length == 4096 && head.Length == 8
      && arena as object != freeBits && arena as object != head && freeBits as object != head
    }

    /** The contents as a value. */
    function State(): (t: Table)
      requires Valid()
      reads arena, freeBits, head
      ensures Shape(t)
    {
      Table(arena[..], freeBits[..], head[..])
    }

    constructor ()
      ensures Valid() && fresh(arena) && fresh(freeBits) && fresh(head)
      ensures State() == Empty()
    {
      arena := new Byte[4194304](_ => 0);
      freeBits := new Word[4096](_ => 0);
      head := new List.Link[8](_ => List.NIL);
    }

    predicate IsFree(off: nat)
      requires Valid() && off < 262144
      reads freeBits
      ensures IsFree(off) <==> Has(freeBits[..], off)
    {
      Bit(freeBits[off / 64], off % 64)
    }

    /** A double retire is the one thing the caller must not do. */
    method Retire(c: nat, off: nat)
      requires Valid() && c < 8 && off < 262144 && !IsFree(off)
      modifies arena, freeBits, head
      ensures State() == IntrusiveTable.Retire(old(State()), c, off)
    {
      hide Or, Mask, Bit, Shape, Has, ToLe;
      freeBits[off / 64] := Or(freeBits[off / 64], Mask(off % 64));
      var next := head[c];
      CopyFromSlice(16 * off, ToLe(next));
      head[c] := off;
    }

    /** `copy_from_slice` of four bytes. */
    method CopyFromSlice(dst: nat, bytes: seq<Byte>)
      requires Valid() && dst + 4 <= arena.Length && |bytes| == 4
      modifies arena
      ensures arena[..] == old(arena[..dst]) + bytes + old(arena[dst + 4..])
    {
      ghost var before := arena[..];
      for i := 0 to 4
        invariant arena[..] == before[..dst] + bytes[..i] + before[dst + i..]
      {
        arena[dst + i] := bytes[i];
      }
      assert bytes[..4] == bytes;
    }

    method Pop(c: nat) returns (r: Option<nat>)
      requires Valid() && c < 8 && (head[c] < 262144 || head[c] == List.NIL)
      modifies arena, freeBits, head
      ensures (State(), r) == IntrusiveTable.Pop(old(State()), c)
    {
      var off := head[c];
      if off == List.NIL {
        return None;
      }
      var src := 16 * off;
      var next := FromLe(arena[src..src + 4]);
      head[c] := next;
      freeBits[off / 64] := AndNot(freeBits[off / 64], Mask(off % 64));
      return Some(off);
    }

    /** The interface's own drain: `n` pops, stopping at the first `None`. */
    method DrainInto(c: nat, buf: seq<nat>, n: nat) returns (out: seq<nat>)
      requires Valid() && c < 8 && Inv(State())
      modifies arena, freeBits, head
      ensures State() == PopMany(old(State()), c, n).0
      ensures out == buf + PopMany(old(State()), c, n).1
    {
      hide IntrusiveTable.Pop, List.Inv, View, List.Pop;
      out := buf;
      for i := 0 to n
        invariant Inv(State())
        invariant PopMany(State(), c, n - i).0 == PopMany(old(State()), c, n).0
        invariant out + PopMany(State(), c, n - i).1 == buf + PopMany(old(State()), c, n).1
      {
        ghost var t := State();
        PopKeeps(t, c);
        var r := Pop(c);
        assert PopMany(t, c, n - i) ==
          if r == None then (State(), [])
          else (PopMany(State(), c, n - i - 1).0, [r.value] + PopMany(State(), c, n - i - 1).1);
        match r
        case None =>
          assert out + [] == out;
          return;
        case Some(off) =>
          assert out + ([off] + PopMany(State(), c, n - i - 1).1) == (out + [off]) + PopMany(State(), c, n - i - 1).1;
          out := out + [off];
      }
      assert out + [] == out;
    }

    /** The interface's own flush: one retire per offset. */
    method FlushRun(c: nat, offs: seq<nat>)
      requires Valid() && c < 8 && ListLaws.Retirable(View(State()), offs)
      modifies arena, freeBits, head
      ensures InSegment(offs) && State() == RetireMany(old(State()), c, offs)
    {
      hide IntrusiveTable.Retire, View, List.Retire;
      for i := 0 to |offs|
        invariant ListLaws.Retirable(View(State()), offs[i..])
        invariant RetireMany(State(), c, offs[i..]) == RetireMany(old(State()), c, offs)
      {
        assert offs[i] == offs[i..][0];
        ViewBits(State());
        RetireView(State(), c, offs[i]);
        ListLaws.RetireKeepsRetirable(View(State()), c, offs[i..]);
        Retire(c, offs[i]);
        assert offs[i..][1..] == offs[i + 1..];
      }
    }
  }

  lemma PopKeeps(t: Table, c: nat)
    requires Inv(t) && c < 8
    ensures (t.head[c] < 262144 || t.head[c] == List.NIL) && Inv(IntrusiveTable.Pop(t, c).0)
  {
    List.PopKeepsInv(View(t), c);
    PopView(t, c);
  }

  lemma ViewBits(t: Table)
    requires Shape(t)
    ensures View(t).freeBits == t.freeBits
  {
  }
}
