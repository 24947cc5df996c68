/** The base emulation as a value: links live in the first four bytes of each 16-byte block body. */
module IntrusiveTable {
  import opened Words
  import opened Bitmaps
  import opened FreeSets
  import opened Scripts
  import List = ListTable
  import ListLaws
  import ListRuns

  type Byte = x: nat | x < 256

  datatype Table = Table(arena: seq<Byte>, freeBits: seq<Word>, head: seq<List.Link>)

  predicate Shape(t: Table) {
    |t.arena| == 4194304 && |t.freeBits| == 4096 && |t.head| == 8
  }

  function Empty(): Table {
    Table(seq(4194304, _ => 0), seq(4096, _ => 0), seq(8, _ => List.NIL))
  }

  /** `u32::to_le_bytes`. */
  function ToLe(x: List.Link): (b: seq<Byte>)
    ensures |b| == 4
  {
    [x % 256, x / 256 % 256, x / 256 / 256 % 256, x / 256 / 256 / 256]
  }

  /** `u32::from_le_bytes`. */
  function FromLe(b: seq<Byte>): List.Link
    requires |b| == 4
  {
    b[0] as nat + 256 * (b[1] as nat + 256 * (b[2] as nat + 256 * (b[3] as nat)))
  }

  /** The least significant byte comes first, and the four bytes give the link back. */
  lemma LeRoundTrip(x: List.Link)
    ensures FromLe(ToLe(x)) == x
    ensures var b := ToLe(x);
      x == b[0] as nat + 0x100 * b[1] as nat + 0x1_0000 * b[2] as nat + 0x100_0000 * b[3] as nat
  {
  }

  /** The link stored in block `off`. */
  function Load(arena: seq<Byte>, off: nat): List.Link
    requires |arena| == 4194304 && off < 262144
  {
    FromLe(arena[16 * off..16 * off + 4])
  }

  /** The arena with `x` written into the first four bytes of block `off`. */
  function Store(arena: seq<Byte>, off: nat, x: List.Link): (r: seq<Byte>)
    requires |arena| == 4194304 && off < 262144
    ensures |r| == |arena|
  {
    arena[..16 * off] + ToLe(x) + arena[16 * off + 4..]
  }

  /** A stored link reads back from its four bytes, lowest first, and no other byte is touched. */
  lemma StoreLoad(arena: seq<Byte>, off: nat, x: List.Link)
    requires |arena| == 4194304 && off < 262144
    ensures Load(Store(arena, off, x), off) == x
    ensures var a := Store(arena, off, x);
      x == a[16 * off] as nat + 0x100 * a[16 * off + 1] as nat + 0x1_0000 * a[16 * off + 2] as nat
           + 0x100_0000 * a[16 * off + 3] as nat
    ensures forall k: nat | k < |arena| && !(16 * off <= k < 16 * off + 4) :: Store(arena, off, x)[k] == arena[k]
    ensures forall s: nat | s < 262144 && s != off :: Load(Store(arena, off, x), s) == Load(arena, s)
  {
    var a := Store(arena, off, x);
    assert a[16 * off..16 * off + 4] == ToLe(x);
    LeRoundTrip(x);
    forall s: nat | s < 262144 && s != off
      ensures a[16 * s..16 * s + 4] == arena[16 * s..16 * s + 4]
    {
    }
  }

  function Retire(t: Table, c: nat, off: nat): Table
    requires Shape(t) && c < 8 && off < 262144
  {
    Table(Store(t.arena, off, t.head[c]),
          t.freeBits[off / 64 := Or(t.freeBits[off / 64], Mask(off % 64))],
          t.head[c := off])
  }

  function Pop(t: Table, c: nat): (Table, Option<nat>)
    requires Shape(t) && c < 8 && (t.head[c] < 262144 || t.head[c] == List.NIL)
  {
    var off := t.head[c];
    if off == List.NIL then (t, None)
    else
      (Table(t.arena, t.freeBits[off / 64 := AndNot(t.freeBits[off / 64], Mask(off % 64))],
             t.head[c := Load(t.arena, off)]),
       Some(off))
  }

  /** The same lists with the links gathered from the block bodies into a side table. */
  function View(t: Table): (r: List.Table)
    requires Shape(t)
    ensures List.Shape(r)
  {
    List.Table(t.freeBits, seq(262144, s requires 0 <= s < 262144 => Load(t.arena, s)), t.head)
  }

  /** The last block of a list ends it with four bytes 255. */
  lemma EndOfList(t: Table, c: nat, off: nat)
    requires Shape(t) && c < 8 && off < 262144 && t.head[c] == List.NIL
    ensures forall k: nat | 16 * off <= k < 16 * off + 4 :: Retire(t, c, off).arena[k] == 255
  {
    var a := Store(t.arena, off, List.NIL);
    assert a[16 * off..16 * off + 4] == ToLe(List.NIL);
    assert ToLe(List.NIL) == [255, 255, 255, 255];
    assert forall k: nat | 16 * off <= k < 16 * off + 4 :: a[k] == a[16 * off..16 * off + 4][k - 16 * off];
  }

  /** A retire in the block body is a retire in the side table. */
  lemma RetireView(t: Table, c: nat, off: nat)
    requires Shape(t) && c < 8 && off < 262144
    ensures View(Retire(t, c, off)) == List.Retire(View(t), c, off)
  {
    StoreLoad(t.arena, off, t.head[c]);
  }

  lemma PopView(t: Table, c: nat)
    requires Shape(t) && c < 8 && (t.head[c] < 262144 || t.head[c] == List.NIL)
    ensures var (t', r) := Pop(t, c); Shape(t') && (View(t'), r) == List.Pop(View(t), c)
  {
  }

  lemma EmptyView()
    ensures Shape(Empty()) && View(Empty()) == List.Empty()
  {
    forall s: nat | s < 262144
      ensures Load(Empty().arena, s) == 0
    {
      assert Empty().arena[16 * s..16 * s + 4] == [0, 0, 0, 0];
    }
  }

  /** The lists are proper. */
  ghost predicate Inv(t: Table) {
    Shape(t) && List.Inv(View(t))
  }

  function PopMany(t: Table, c: nat, n: nat): (Table, seq<nat>)
    requires Inv(t) && c < 8
    decreases n
  {
    if n == 0 then (t, [])
    else
      List.PopKeepsInv(View(t), c);
      PopView(t, c);
      var (t1, r) := Pop(t, c);
      if r == None then (t1, [])
      else
        var (t2, rest) := PopMany(t1, c, n - 1);
        (t2, [r.value] + rest)
  }

  function RetireMany(t: Table, c: nat, offs: seq<nat>): (r: Table)
    requires Shape(t) && c < 8 && InSegment(offs)
    ensures Shape(r)
    decreases |offs|
  {
    if offs == [] then t else RetireMany(Retire(t, c, offs[0]), c, offs[1..])
  }

  lemma {:induction false} PopManyView(t: Table, c: nat, n: nat)
    requires Inv(t) && c < 8
    ensures var (t', issued) := PopMany(t, c, n); Shape(t') && (View(t'), issued) == ListLaws.PopMany(View(t), c, n)
    decreases n
  {
    if n != 0 {
      hide Load, List.Rep;
      List.PopKeepsInv(View(t), c);
      PopView(t, c);
      if Pop(t, c).1 != None {
        hide Pop, List.Pop;
        PopManyView(Pop(t, c).0, c, n - 1);
      }
    }
  }

  lemma {:induction false} RetireManyView(t: Table, c: nat, offs: seq<nat>)
    requires Shape(t) && c < 8 && InSegment(offs)
    ensures View(RetireMany(t, c, offs)) == ListLaws.RetireMany(View(t), c, offs)
    decreases |offs|
  {
    if offs != [] {
      hide Retire, List.Retire;
      RetireView(t, c, offs[0]);
      RetireManyView(Retire(t, c, offs[0]), c, offs[1..]);
    }
  }

  /** One operation and what it issues. */
  function Next(t: Table, op: Op): (Table, seq<nat>)
    requires Inv(t) && ListRuns.Legal(View(t), op)
  {
    match op
    case Retire(c, off) =>
      assert Retired(op)[0] == off;
      (Retire(t, c, off), [])
    case Pop(c) =>
      List.PopKeepsInv(View(t), c);
      var (t', r) := Pop(t, c);
      (t', if r == None then [] else [r.value])
    case Drain(c, n) => PopMany(t, c, n)
    case Flush(c, offs) =>
      assert ListLaws.Retirable(View(t), offs);
      (RetireMany(t, c, offs), [])
  }

  /** Step for step, the links in the bodies and the links in the side table do the same. */
  lemma Bisimilar(t: Table, op: Op)
    requires Inv(t) && ListRuns.Legal(View(t), op)
    ensures var (t', out) := Next(t, op); Inv(t') && (View(t'), out) == ListRuns.Next(View(t), op)
  {
    ListRuns.NextRefines(View(t), op);
    hide Retire, Pop, List.Retire, List.Pop, View, List.Inv;
    match op
    case Retire(c, off) =>
      assert Retired(op)[0] == off;
      RetireView(t, c, off);
    case Pop(c) =>
      List.PopKeepsInv(View(t), c);
      PopView(t, c);
    case Drain(c, n) =>
      PopManyView(t, c, n);
    case Flush(c, offs) =>
      RetireManyView(t, c, offs);
  }

  /** What a run of the intrusive lists issues, operation by operation. */
  function Outs(t: Table, ops: seq<Op>): seq<seq<nat>>
    requires Inv(t) && ListRuns.LegalRun(View(t), ops)
    decreases |ops|
  {
    if ops == [] then []
    else
      Bisimilar(t, ops[0]);
      [Next(t, ops[0]).1] + Outs(Next(t, ops[0]).0, ops[1..])
  }

  /** The table that a run of the intrusive lists ends with. */
  function After(t: Table, ops: seq<Op>): (r: Table)
    requires Inv(t) && ListRuns.LegalRun(View(t), ops)
    ensures Inv(r)
    decreases |ops|
  {
    if ops == [] then t
    else
      Bisimilar(t, ops[0]);
      After(Next(t, ops[0]).0, ops[1..])
  }

  /**
    * On every legal script the intrusive lists and the side-table lists issue the same offsets in the same
    * order and end with the same bitmap, heads and links.
    */
  lemma {:induction false} BisimilarRuns(t: Table, ops: seq<Op>)
    requires Inv(t) && ListRuns.LegalRun(View(t), ops)
    ensures Outs(t, ops) == ListRuns.Outs(View(t), ops)
    ensures View(After(t, ops)) == ListRuns.Tables(View(t), ops)[|ops|]
    decreases |ops|
  {
    hide Next, ListRuns.Next, View, List.Inv, ListRuns.Legal;
    if ops != [] {
      Bisimilar(t, ops[0]);
      ListRuns.RunUnfolds(View(t), ops);
      BisimilarRuns(Next(t, ops[0]).0, ops[1..]);
    }
  }
}
