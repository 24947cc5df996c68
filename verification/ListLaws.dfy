/** Batches of pops and retires on the linked lists: each class is a LIFO stack. */
module ListLaws {
  import opened Bitmaps
  import opened FreeSets
  import opened ListTable

  /** `n` pops in a row, stopping at the first `None`: the interface's `drain_into`. */
  function PopMany(t: Table, c: nat, n: nat): (Table, seq<nat>)
    requires Inv(t) && c < 8
    decreases n
  {
    if n == 0 then (t, [])
    else
      PopKeepsInv(t, c);
      var (t1, r) := ListTable.Pop(t, c);
      if r == None then (t1, [])
      else
        var (t2, rest) := PopMany(t1, c, n - 1);
        (t2, [r.value] + rest)
  }

  /** One retire per offset, in order: the interface's `flush_run`. */
  function RetireMany(t: Table, c: nat, offs: seq<nat>): (r: Table)
    requires Shape(t) && c < 8 && InSegment(offs)
    ensures Shape(r)
    decreases |offs|
  {
    if offs == [] then t else RetireMany(ListTable.Retire(t, c, offs[0]), c, offs[1..])
  }

  function Reverse(s: seq<nat>): (r: seq<nat>)
    ensures |r| == |s|
  {
    if s == [] then [] else Reverse(s[1..]) + [s[0]]
  }

  function Taken(n: nat, s: seq<nat>): nat {
    if n < |s| then n else |s|
  }

  /** A drain takes the top `n` of the list, in order, and leaves the rest. */
  lemma {:induction false} PopManyEffect(t: Table, st: Stacks, c: nat, n: nat)
    requires Rep(t, st) && c < 8
    ensures var (t', issued) := PopMany(t, c, n); var k := Taken(n, st[c]);
      issued == st[c][..k] && Rep(t', st[c := st[c][k..]])
    decreases n
  {
    hide Chain, Apart, Covers, ListTable.Pop;
    if n == 0 {
      assert st[c := st[c][0..]] == st;
    } else {
      PopEffect(t, st, c);
      if st[c] == [] {
        assert st[c := st[c][0..]] == st;
      } else {
        var st1, k := st[c := st[c][1..]], Taken(n, st[c]);
        PopManyEffect(ListTable.Pop(t, c).0, st1, c, n - 1);
        assert st1[c][k - 1..] == st[c][k..] && st1[c := st[c][k..]] == st[c := st[c][k..]];
        assert [st[c][0]] + st1[c][..k - 1] == st[c][..k];
      }
    }
  }

  /** The slots can be retired one after the other without a double retire. */
  predicate Retirable(t: Table, offs: seq<nat>)
    requires Shape(t)
  {
    Distinct(offs) && forall i | 0 <= i < |offs| :: offs[i] < 262144 && !Has(t.freeBits, offs[i])
  }

  lemma RetireKeepsRetirable(t: Table, c: nat, offs: seq<nat>)
    requires Shape(t) && c < 8 && offs != [] && Retirable(t, offs)
    ensures Retirable(ListTable.Retire(t, c, offs[0]), offs[1..])
  {
    BitsAfterRetire(t, c, offs[0]);
  }

  /** A flush pushes its offsets one by one, so they end up on top in reverse order. */
  lemma {:induction false} RetireManyEffect(t: Table, st: Stacks, c: nat, offs: seq<nat>)
    requires Rep(t, st) && c < 8 && Retirable(t, offs)
    ensures InSegment(offs) && Rep(RetireMany(t, c, offs), st[c := Reverse(offs) + st[c]])
    decreases |offs|
  {
    hide Chain, Apart, Covers, ListTable.Retire;
    if offs == [] {
      assert [] + st[c] == st[c] && st[c := st[c]] == st;
    } else {
      var t1, st1 := ListTable.Retire(t, c, offs[0]), st[c := [offs[0]] + st[c]];
      RetireEffect(t, st, c, offs[0]);
      BitsAfterRetire(t, c, offs[0]);
      RetireManyEffect(t1, st1, c, offs[1..]);
      assert Reverse(offs[1..]) + st1[c] == Reverse(offs) + st[c];
      assert st1[c := Reverse(offs) + st[c]] == st[c := Reverse(offs) + st[c]];
    }
  }

  /**
    * Draining `n` slots and flushing what came out puts exactly the drained prefix back in reverse
    * order; in particular every list holds the same set as before.
    */
  lemma DrainThenFlush(t: Table, st: Stacks, c: nat, n: nat)
    requires Rep(t, st) && c < 8
    ensures var (t1, issued) := PopMany(t, c, n); var k := Taken(n, st[c]);
      && Shape(t1) && Retirable(t1, issued) && InSegment(issued)
      && Rep(RetireMany(t1, c, issued), st[c := Reverse(st[c][..k]) + st[c][k..]])
      && Elements(Reverse(st[c][..k]) + st[c][k..]) == Elements(st[c])
      && RetireMany(t1, c, issued).freeBits == t.freeBits
  {
    hide PopMany, RetireMany, Chain, Apart, Covers, Has, Reverse, Elements;
    var (t1, issued) := PopMany(t, c, n);
    var k := Taken(n, st[c]);
    PopManyEffect(t, st, c, n);
    var st1, back := st[c := st[c][k..]], Reverse(st[c][..k]) + st[c][k..];
    DrainedIsRetirable(t, t1, st, c, k);
    RetireManyEffect(t1, st1, c, issued);
    assert st1[c := Reverse(issued) + st1[c]] == st[c := back];
    ReverseElements(issued);
    assert st[c] == issued + st[c][k..];
    ElementsOfConcat(issued, st[c][k..]);
    ElementsOfConcat(Reverse(issued), st[c][k..]);
    SameBits(t, st, RetireMany(t1, c, issued), st[c := back]);
  }

  /** What has left a list is on no list, so the bitmap says it is not free. */
  lemma DrainedIsRetirable(t: Table, t1: Table, st: Stacks, c: nat, k: nat)
    requires Rep(t, st) && c < 8 && k <= |st[c]| && Rep(t1, st[c := st[c][k..]])
    ensures Retirable(t1, st[c][..k]) && InSegment(st[c][..k])
  {
    hide Chain, Has;
    var st1, issued := st[c := st[c][k..]], st[c][..k];
    assert Distinct(st[c]);
    forall i | 0 <= i < |issued|
      ensures issued[i] < 262144 && !Has(t1.freeBits, issued[i])
    {
      var s := st[c][i];
      assert s in st[c] && s in Elements(st[c]);
      forall d | 0 <= d < 8
        ensures s !in st1[d]
      {
        if d != c {
          assert Elements(st[if d < c then d else c]) !! Elements(st[if d < c then c else d]);
        }
      }
    }
  }

  lemma {:induction false} ReverseElements(s: seq<nat>)
    ensures Elements(Reverse(s)) == Elements(s)
  {
    if s != [] {
      ReverseElements(s[1..]);
      assert s == [s[0]] + s[1..];
      ElementsOfConcat([s[0]], s[1..]);
      ElementsOfConcat(Reverse(s[1..]), [s[0]]);
    }
  }

  /** Lists with the same elements have the same bitmap. */
  lemma SameBits(a: Table, st: Stacks, b: Table, st': Stacks)
    requires Rep(a, st) && Rep(b, st') && forall d | 0 <= d < 8 :: Elements(st[d]) == Elements(st'[d])
    ensures a.freeBits == b.freeBits
  {
    forall s: nat | s < 262144
      ensures Has(a.freeBits, s) <==> Has(b.freeBits, s)
    {
      if Has(a.freeBits, s) {
        var d :| 0 <= d < 8 && s in st[d];
        assert s in Elements(st[d]) && s in st'[d];
      }
      if Has(b.freeBits, s) {
        var d :| 0 <= d < 8 && s in st'[d];
        assert s in Elements(st'[d]) && s in st[d];
      }
    }
    SlotsDetermine(a.freeBits, b.freeBits);
  }
}
