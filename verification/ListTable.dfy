/** The linked free lists as a value: a flat free bitmap, one link per slot, one head per class. */
module ListTable {
  import opened Words
  import opened Bitmaps
  import opened FreeSets

  /** `u32::MAX`, the end of a list. */
  const NIL: nat := 0xFFFF_FFFF

  /** A `u32` stored as a link. */
  type Link = x: nat | x <= 0xFFFF_FFFF

  datatype Table = Table(freeBits: seq<Word>, links: seq<Link>, head: seq<Link>)

  /** The content of the lists: for each class its slots, most recently retired first. */
  type Stacks = seq<seq<nat>>

  predicate Shape(t: Table) {
    |t.freeBits| == 4096 && |t.links| == 262144 && |t.head| == 8
  }

  function Empty(): Table {
    Table(seq(4096, _ => 0), seq(262144, _ => 0), seq(8, _ => NIL))
  }

  function EmptyStacks(): Stacks {
    seq(8, _ => [])
  }

  /** Following `links` from `h` visits exactly the slots of `s` and then ends. */
  predicate Chain(links: seq<Link>, h: Link, s: seq<nat>)
    requires |links| == 262144
    decreases |s|
  {
    if s == [] then h == NIL
    else h == s[0] && h < 262144 && Chain(links, links[h], s[1..])
  }

  /** No slot is in two places. */
  predicate Apart(st: Stacks) {
    && (forall c | 0 <= c < |st| :: Distinct(st[c]))
    && (forall c, d | 0 <= c < d < |st| :: Elements(st[c]) !! Elements(st[d]))
  }

  /** The chains hold exactly the free slots. */
  predicate Covers(st: Stacks, freeBits: seq<Word>) {
    && (forall c, s | 0 <= c < |st| && s in st[c] :: s < 262144)
    && (forall c, s | 0 <= c < |st| && s in st[c] :: Has(freeBits, s))
    && (forall s: nat | s < 262144 && Has(freeBits, s) :: exists c :: 0 <= c < |st| && s in st[c])
  }

  /** The table's lists are `st`: acyclic, pairwise disjoint, and together the set bits of the bitmap. */
  predicate Rep(t: Table, st: Stacks) {
    && Shape(t) && |st| == 8
    && (forall c | 0 <= c < 8 :: Chain(t.links, t.head[c], st[c]))
    && Apart(st)
    && Covers(st, t.freeBits)
  }

  function Retire(t: Table, c: nat, off: nat): Table
    requires Shape(t) && c < 8 && off < 262144
  {
    Table(t.freeBits[off / 64 := Or(t.freeBits[off / 64], Mask(off % 64))],
          t.links[off := t.head[c]],
          t.head[c := off])
  }

  /** One `pop`; a head that is neither a slot nor `NIL` would be out of bounds. */
  function Pop(t: Table, c: nat): (Table, Option<nat>)
    requires Shape(t) && c < 8 && (t.head[c] < 262144 || t.head[c] == NIL)
  {
    var off := t.head[c];
    if off == NIL then (t, None)
    else
      (Table(t.freeBits[off / 64 := AndNot(t.freeBits[off / 64], Mask(off % 64))], t.links, t.head[c := t.links[off]]),
       Some(off))
  }

  /** A list is determined by its head and the links. */
  lemma {:induction false} ChainUnique(links: seq<Link>, h: Link, s: seq<nat>, s': seq<nat>)
    requires |links| == 262144 && Chain(links, h, s) && Chain(links, h, s')
    ensures s == s'
    decreases |s|
  {
    if s != [] && s' != [] {
      ChainUnique(links, links[h], s[1..], s'[1..]);
    }
  }

  /** A write to a slot that a chain does not visit leaves the chain alone. */
  lemma {:induction false} ChainFrame(links: seq<Link>, h: Link, s: seq<nat>, off: nat, v: Link)
    requires |links| == 262144 && off < 262144 && Chain(links, h, s) && off !in s
    ensures Chain(links[off := v], h, s)
    decreases |s|
  {
    if s != [] {
      assert forall x | x in s[1..] :: x in s;
      ChainFrame(links, links[h], s[1..], off, v);
    }
  }

  /** A chain that visited a slot still visits it after a write to that slot. */
  lemma {:induction false} ChainReaches(links: seq<Link>, h: Link, s: seq<nat>, off: nat, v: Link, s': seq<nat>)
    requires |links| == 262144 && off < 262144 && Chain(links, h, s) && off in s
    requires Chain(links[off := v], h, s')
    ensures off in s'
    decreases |s|
  {
    if h != off {
      assert off in s[1..];
      ChainReaches(links, links[h], s[1..], off, v, s'[1..]);
      assert forall x | x in s'[1..] :: x in s';
    }
  }

  /** A retire of a slot that is not free pushes it on its class's list. */
  lemma RetireEffect(t: Table, st: Stacks, c: nat, off: nat)
    requires Rep(t, st) && c < 8 && off < 262144 && !Has(t.freeBits, off)
    ensures Rep(Retire(t, c, off), st[c := [off] + st[c]])
  {
    var t', st' := Retire(t, c, off), st[c := [off] + st[c]];
    assert forall d | 0 <= d < 8 :: off !in st[d];
    forall d | 0 <= d < 8
      ensures Chain(t'.links, t'.head[d], st'[d])
    {
      ChainFrame(t.links, t.head[d], st[d], off, t.head[c]);
      assert ([off] + st[c])[1..] == st[c];
    }
    ElementsOfCons(off, st[c]);
    PushApart(st, c, off);
    BitsAfterRetire(t, c, off);
    forall d, s | 0 <= d < 8 && s in st'[d]
      ensures s < 262144 && Has(t'.freeBits, s)
    {
      if s != off {
        assert s in st[d] by {
          if d == c {
            var i :| 0 <= i < |st'[c]| && st'[c][i] == s;
            assert st[c][i - 1] == s;
          }
        }
      }
    }
    forall s: nat | s < 262144 && Has(t'.freeBits, s)
      ensures exists d :: 0 <= d < 8 && s in st'[d]
    {
      if s == off {
        assert off in st'[c];
      } else {
        var d :| 0 <= d < 8 && s in st[d];
        assert s in st'[d];
      }
    }
  }

  lemma PushApart(st: Stacks, c: nat, off: nat)
    requires Apart(st) && c < |st| && forall d | 0 <= d < |st| :: off !in st[d]
    ensures Apart(st[c := [off] + st[c]])
  {
    ElementsOfCons(off, st[c]);
  }

  lemma BitsAfterRetire(t: Table, c: nat, off: nat)
    requires Shape(t) && c < 8 && off < 262144
    ensures forall s: nat | s < 262144 :: Has(Retire(t, c, off).freeBits, s) <==> Has(t.freeBits, s) || s == off
  {
    SlotsOfOr(t.freeBits, off / 64, Mask(off % 64));
    SlotsOfMask(off / 64, off % 64);
    assert forall s: nat | s < 262144 :: Has(Retire(t, c, off).freeBits, s) <==> s in Slots(Retire(t, c, off).freeBits);
    assert forall s: nat | s < 262144 :: Has(t.freeBits, s) <==> s in Slots(t.freeBits);
  }

  /** `pop` takes the top of the class's list, `None` exactly when it is empty. */
  lemma PopEffect(t: Table, st: Stacks, c: nat)
    requires Rep(t, st) && c < 8
    ensures t.head[c] < 262144 || t.head[c] == NIL
    ensures var (t', r) := Pop(t, c);
      if st[c] == [] then t' == t && r == None
      else r == Some(st[c][0]) && Rep(t', st[c := st[c][1..]])
  {
    assert Chain(t.links, t.head[c], st[c]);
    if st[c] != [] {
      var (t', st') := (Pop(t, c).0, st[c := st[c][1..]]);
      var off := st[c][0];
      assert forall x | x in st[c][1..] :: x in st[c] && x != off;
      assert Elements(st[c][1..]) <= Elements(st[c]);
      SlotsOfAndNot(t.freeBits, off / 64, Mask(off % 64));
      SlotsOfMask(off / 64, off % 64);
      forall s: nat | s < 262144
        ensures Has(t'.freeBits, s) <==> Has(t.freeBits, s) && s != off
      {
        InSlots(t.freeBits, s);
        InSlots(t'.freeBits, s);
      }
      PopApart(st, c);
      PopCovers(st, c, t.freeBits, t'.freeBits);
    }
  }

  lemma PopApart(st: Stacks, c: nat)
    requires Apart(st) && c < |st| && st[c] != []
    ensures Apart(st[c := st[c][1..]])
  {
    var st' := st[c := st[c][1..]];
    assert Elements(st'[c]) <= Elements(st[c]);
    forall d | 0 <= d < |st'|
      ensures Distinct(st'[d])
    {
      assert Distinct(st[d]);
    }
    forall d, e | 0 <= d < e < |st'|
      ensures Elements(st'[d]) !! Elements(st'[e])
    {
      assert Elements(st[d]) !! Elements(st[e]);
    }
  }

  /** What is left on the lists once the top of one is gone. */
  lemma PopMembers(st: Stacks, c: nat, d: nat, s: nat)
    requires Apart(st) && c < |st| && st[c] != [] && d < |st|
    ensures s in st[c := st[c][1..]][d] <==> s in st[d] && s != st[c][0]
  {
    var top, st' := st[c][0], st[c := st[c][1..]];
    if d == c {
      assert st[c] == [top] + st'[c];
      assert Distinct(st[c]);
    } else {
      assert Elements(st[if d < c then d else c]) !! Elements(st[if d < c then c else d]);
      assert top in Elements(st[c]) && (s in st[d] ==> s in Elements(st[d]));
    }
  }

  lemma PopCovers(st: Stacks, c: nat, bits: seq<Word>, bits': seq<Word>)
    requires Apart(st) && Covers(st, bits) && c < |st| && st[c] != []
    requires forall s: nat | s < 262144 :: Has(bits', s) <==> Has(bits, s) && s != st[c][0]
    ensures Covers(st[c := st[c][1..]], bits')
  {
    var st' := st[c := st[c][1..]];
    forall d, s | 0 <= d < |st'| && s in st'[d]
      ensures s in st[d] && s != st[c][0]
    {
      PopMembers(st, c, d, s);
    }
    forall s: nat | s < 262144 && Has(bits', s)
      ensures exists d :: 0 <= d < |st'| && s in st'[d]
    {
      var d :| 0 <= d < |st| && s in st[d];
      PopMembers(st, c, d, s);
    }
  }

  /** Exactly the retires of slots that are not free leave lists at all: a double retire makes a cycle or a fork. */
  lemma RetireKeepsListsIff(t: Table, st: Stacks, c: nat, off: nat)
    requires Rep(t, st) && c < 8 && off < 262144
    ensures (exists st' :: Rep(Retire(t, c, off), st')) <==> !Has(t.freeBits, off)
  {
    var t' := Retire(t, c, off);
    if !Has(t.freeBits, off) {
      RetireEffect(t, st, c, off);
    } else if st' :| Rep(t', st') {
      var d :| 0 <= d < 8 && off in st[d];
      assert Chain(t'.links, t'.head[c], st'[c]) && st'[c][0] == off;
      if d != c {
        ChainReaches(t.links, t.head[d], st[d], off, t.head[c], st'[d]);
        assert off in Elements(st'[d]) && off in Elements(st'[c]);
      } else {
        ChainReaches(t.links, t.head[c], st[c], off, t.head[c], st'[c][1..]);
      }
    }
  }

  lemma EmptyIsValid()
    ensures Rep(Empty(), EmptyStacks())
  {
    forall s: nat | s < 262144
      ensures !Has(Empty().freeBits, s)
    {
      ZeroHasNoBits(s % 64);
    }
  }

  /** The table holds some lists. */
  ghost predicate Inv(t: Table) {
    exists st :: Rep(t, st)
  }

  /** They are determined by the table. */
  lemma StacksUnique(t: Table, st: Stacks, st': Stacks)
    requires Rep(t, st) && Rep(t, st')
    ensures st == st'
  {
    forall c | 0 <= c < 8
      ensures st[c] == st'[c]
    {
      ChainUnique(t.links, t.head[c], st[c], st'[c]);
    }
  }

  lemma PopKeepsInv(t: Table, c: nat)
    requires Inv(t) && c < 8
    ensures Shape(t) && (t.head[c] < 262144 || t.head[c] == NIL) && Inv(Pop(t, c).0)
  {
    var st :| Rep(t, st);
    PopEffect(t, st, c);
  }
}
