/** The tag array of cg_sim.c, updated in place, and its agreement with the value-level cache. */
module CacheTable {
  import opened MachineWords
  import opened CBits
  import opened CacheArch
  import opened CacheSets
  import opened CacheSim

  /** Where set i starts in the tag array. */
  function Base(i: nat, assoc: nat): nat {
    i * assoc
  }

  lemma RowFits(i: nat, sets: nat, assoc: nat)
    requires i < sets
    ensures Base(i, assoc) + assoc <= Base(sets, assoc)
  {
    MulMonotone(i + 1, sets, assoc);
    assert (i + 1) * assoc == i * assoc + assoc;
  }

  /** Set i of a flat tag array. */
  ghost function FlatRow(flat: seq<nat>, sets: nat, assoc: nat, i: nat): (r: Row)
    requires |flat| == Base(sets, assoc) && i < sets
    ensures |r| == assoc
  {
    RowFits(i, sets, assoc);
    flat[Base(i, assoc)..Base(i, assoc) + assoc]
  }

  ghost function FlatRows(flat: seq<nat>, sets: nat, assoc: nat): (rows: Rows)
    requires |flat| == Base(sets, assoc)
    ensures |rows| == sets && forall i :: 0 <= i < sets ==> |rows[i]| == assoc
  {
    seq(sets, i requires 0 <= i < sets => FlatRow(flat, sets, assoc, i))
  }

  /** Shifting the tags of one set down over position c and putting a tag in front. */
  ghost function Shifted(flat: seq<nat>, base: nat, c: nat, tag: nat): (r: seq<nat>)
    requires base + c < |flat|
    ensures |r| == |flat|
  {
    flat[..base] + [tag] + flat[base..base + c] + flat[base + c + 1..]
  }

  lemma ShiftedOther(flat: seq<nat>, sets: nat, assoc: nat, s: nat, c: nat, tag: nat, i: nat)
    requires |flat| == Base(sets, assoc) && s < sets && i < sets && i != s && c < assoc
    requires Base(s, assoc) + c < |flat|
    ensures FlatRow(Shifted(flat, Base(s, assoc), c, tag), sets, assoc, i) == FlatRow(flat, sets, assoc, i)
  {
    hide Base;
    RowFits(s, sets, assoc);
    RowFits(i, sets, assoc);
    if i < s {
      RowFits(i, s, assoc);
    } else {
      RowFits(s, i, assoc);
    }
    var z := Shifted(flat, Base(s, assoc), c, tag);
    hide Shifted;
    forall k | 0 <= k < assoc
      ensures FlatRow(z, sets, assoc, i)[k] == FlatRow(flat, sets, assoc, i)[k]
    {
      ShiftedOutside(flat, Base(s, assoc), c, tag, Base(i, assoc) + k);
    }
  }

  lemma ShiftedOutside(flat: seq<nat>, base: nat, c: nat, tag: nat, k: nat)
    requires base + c < |flat| && k < |flat| && (k < base || k > base + c)
    ensures Shifted(flat, base, c, tag)[k] == flat[k]
  {
  }

  lemma ShiftedSame(flat: seq<nat>, sets: nat, assoc: nat, s: nat, tag: nat, c: nat)
    requires |flat| == Base(sets, assoc) && s < sets && assoc > 0
    requires c == Cut(FlatRow(flat, sets, assoc, s), tag) && Base(s, assoc) + c < |flat|
    ensures FlatRow(Shifted(flat, Base(s, assoc), c, tag), sets, assoc, s) == Touch(FlatRow(flat, sets, assoc, s), tag)
  {
    hide IndexOf, Base, Touch;
    RowFits(s, sets, assoc);
    var row := FlatRow(flat, sets, assoc, s);
    var after := FlatRow(Shifted(flat, Base(s, assoc), c, tag), sets, assoc, s);
    forall k | 0 <= k < assoc
      ensures after[k] == Touch(row, tag)[k]
    {
      TouchAt(row, tag, k);
      var flat' := Shifted(flat, Base(s, assoc), c, tag);
      assert after[k] == flat'[Base(s, assoc) + k];
      assert k > 0 ==> row[k - 1] == flat[Base(s, assoc) + k - 1];
      assert row[k] == flat[Base(s, assoc) + k];
    }
  }

  /** The flat update realises a reference to set s. */
  lemma ShiftedRows(flat: seq<nat>, sets: nat, assoc: nat, s: nat, tag: nat, c: nat)
    requires |flat| == Base(sets, assoc) && s < sets && assoc > 0
    requires c == Cut(FlatRow(flat, sets, assoc, s), tag) && Base(s, assoc) + c < |flat|
    ensures var rows := FlatRows(flat, sets, assoc);
      FlatRows(Shifted(flat, Base(s, assoc), c, tag), sets, assoc) == rows[s := Touch(rows[s], tag)]
  {
    hide Base, Cut, Touch, Shifted, FlatRow;
    ShiftedSame(flat, sets, assoc, s, tag, c);
    forall i | 0 <= i < sets && i != s
      ensures FlatRow(Shifted(flat, Base(s, assoc), c, tag), sets, assoc, i) == FlatRow(flat, sets, assoc, i)
    {
      ShiftedOther(flat, sets, assoc, s, c, tag, i);
    }
  }

  lemma ZeroRows(flat: seq<nat>, sets: nat, assoc: nat)
    requires |flat| == Base(sets, assoc) && forall k :: 0 <= k < |flat| ==> flat[k] == 0
    ensures FlatRows(flat, sets, assoc) == Empty(sets, assoc)
  {
    hide Base;
    forall i | 0 <= i < sets
      ensures FlatRow(flat, sets, assoc, i) == Zeros(assoc)
    {
      RowFits(i, sets, assoc);
    }
  }

  lemma SetCount(c: Config, k: nat)
    requires c.size > 0 && c.assoc > 0 && c.lineSize > 0 && ExactSets(c, k)
    ensures c.size / c.lineSize / c.assoc == Pow2(k)
  {
    SetsDivide(c.size, c.lineSize, c.assoc);
    DivUnique(c.size, c.lineSize * c.assoc, Pow2(k), 0);
  }

  lemma ShiftNone(flat: seq<nat>, base: nat, tag: nat)
    requires base < |flat| && flat[base] == tag
    ensures Shifted(flat, base, 0, tag) == flat
  {
  }

  lemma RowOf(flat: seq<nat>, sets: nat, assoc: nat, s: nat)
    requires |flat| == Base(sets, assoc) && s < sets
    ensures FlatRows(flat, sets, assoc)[s] == FlatRow(flat, sets, assoc, s)
  {
  }

  class Cache {
    const size: nat
    const assoc: nat
    const lineSize: nat
    const sets: nat
    const setsMin1: nat
    const lineSizeBits: nat
    const tagShift: nat
    const tags: array<nat>
    ghost const setBits: nat

    ghost predicate Valid()
      reads this
    {
      && assoc > 0 && sets == Pow2(setBits) && setsMin1 == sets - 1
      && lineSize == Pow2(lineSizeBits) && tags.Length == Base(sets, assoc)
    }

    /** The cache this table stands for. */
    ghost function State(): (rows: Rows)
      requires Valid()
      reads this, tags
      ensures |rows| == sets && Shaped(rows, assoc)
    {
      FlatRows(tags[..], sets, assoc)
    }

    /** cachesim_initcache, for a geometry that check_cache accepts */
    constructor (c: Config)
      requires c.size > 0 && c.assoc > 0 && c.lineSize > 0
      requires exists j :: 0 <= j < 32 && Pow2(j) == c.lineSize
      requires exists k :: 0 <= k < 32 && ExactSets(c, k)
      ensures Valid() && fresh(tags) && State() == Empty(sets, c.assoc)
      ensures assoc == c.assoc && lineSize == c.lineSize && lineSize * assoc * sets == c.size
    {
      ghost var k :| 0 <= k < 32 && ExactSets(c, k);
      SetCount(c, k);
      hide Pow2, Base;
      var n := c.size / c.lineSize / c.assoc;
      var lineBits := Log2(c.lineSize);
      var nBits := Log2(n);
      size, assoc, lineSize := c.size, c.assoc, c.lineSize;
      sets, setsMin1 := n, n - 1;
      lineSizeBits, tagShift := lineBits, lineBits + nBits;
      setBits := k;
      tags := new nat[Base(n, c.assoc)](_ => 0);
      new;
      ZeroRows(tags[..], sets, assoc);
    }

    /** Shuffle the tags base..base+c down by one and install `tag` in front. */
    method ShiftDown(base: nat, c: nat, tag: nat)
      requires base + c < tags.Length
      modifies tags
      ensures tags[..] == Shifted(old(tags[..]), base, c, tag)
    {
      ghost var was := tags[..];
      var j := c;
      while j > 0
        invariant 0 <= j <= c
        invariant forall k :: base + j < k <= base + c ==> tags[k] == was[k - 1]
        invariant forall k :: 0 <= k <= base + j ==> tags[k] == was[k]
        invariant forall k :: base + c < k < tags.Length ==> tags[k] == was[k]
      {
        tags[base + j] := tags[base + j - 1];
        j := j - 1;
      }
      tags[base] := tag;
      assert tags[..] == Shifted(was, base, c, tag);
    }

    /** cachesim_setref_is_miss */
    method SetRefIsMiss(setNo: nat, tag: nat) returns (miss: bool)
      requires Valid() && setNo < sets
      modifies tags
      ensures State() == old(State())[setNo := Touch(old(State())[setNo], tag)]
      ensures miss <==> tag !in old(State())[setNo]
    {
      ghost var was := tags[..];
      ghost var row := FlatRow(was, sets, assoc, setNo);
      RowFits(setNo, sets, assoc);
      RowOf(was, sets, assoc, setNo);
      hide Base, Touch, Shifted, FlatRows, Pow2;
      var base := Base(setNo, assoc);
      ShiftedRows(was, sets, assoc, setNo, tag, Cut(row, tag));
      if tag == tags[base] {
        ShiftNone(was, base, tag);
        return false;
      }
      for i := 1 to assoc
        invariant tags[..] == was && forall k :: 0 <= k < i ==> row[k] != tag
      {
        if tag == tags[base + i] {
          assert row[i] == tag && IndexOf(row, tag) == i;
          ShiftDown(base, i, tag);
          return false;
        }
      }
      ShiftDown(base, assoc - 1, tag);
      return true;
    }

    /** cachesim_ref_is_miss */
    method RefIsMiss(a: nat, size: nat) returns (o: Outcome)
      requires Valid() && a < W64
      modifies tags
      ensures (State(), o) == Ref(lineSize, old(State()), a, size)
    {
      ShrIsDiv(a, lineSizeBits);
      ShrIsDiv((a + size - 1) % W64, lineSizeBits);
      hide Touch, And, Shr, Pow2, Base, FlatRows;
      var block1 := Shr(a, lineSizeBits);
      var block2 := Shr((a + size - 1) % W64, lineSizeBits);
      var set1 := And(block1, setsMin1);
      MaskIsMod(block1, setBits);
      if block1 == block2 {
        var miss := SetRefIsMiss(set1, block1);
        return if miss then Miss else Hit;
      } else if block1 + 1 == block2 {
        var set2 := And(block2, setsMin1);
        MaskIsMod(block2, setBits);
        var miss1 := SetRefIsMiss(set1, block1);
        if miss1 {
          var _ := SetRefIsMiss(set2, block2);
          return Miss;
        }
        var miss2 := SetRefIsMiss(set2, block2);
        return if miss2 then Miss else Hit;
      }
      return Panic;
    }
  }
}
