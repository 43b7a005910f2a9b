/** Callgrind's table of call arcs (jumps.c): a chained hash table that grows, with two last-used shortcuts. */
module ArcTable {

  /** An arc: source block, exit taken, target block; the source 0 is an unknown caller */
  datatype Key = Key(from: nat, jmp: nat, to: nat)

  class Jcc {
    const key: Key
    var next: Jcc?
    var nextFrom: Jcc?

    constructor (key: Key)
      ensures this.key == key
    {
      this.key := key;
    }
  }

  function Hash(k: Key, size: nat): (r: nat)
    requires size > 0
    ensures r < size
  {
    ((k.from + 7 * k.to + 13 * k.jmp) % 0x1_0000_0000) % size
  }

  function At(chain: seq<Jcc>, p: nat): Jcc? {
    if p < |chain| then chain[p] else null
  }

  /** The list that starts at `head` is `chain`. */
  ghost predicate Linked(head: Jcc?, chain: seq<Jcc>)
    reads chain`next
  {
    head == At(chain, 0) && forall p :: 0 <= p < |chain| ==> chain[p].next == At(chain, p + 1)
  }

  /** x is the entry of its key. */
  predicate Entry(m: map<Key, Jcc>, x: Jcc) {
    x.key in m && m[x.key] == x
  }

  /** A chain of entries with hash index `idx`, none twice */
  ghost predicate Chain(m: map<Key, Jcc>, chain: seq<Jcc>, idx: nat, size: nat)
    requires size > 0
  {
    && (forall p :: 0 <= p < |chain| ==> Entry(m, chain[p]) && Hash(chain[p].key, size) == idx)
    && (forall p, q :: 0 <= p < q < |chain| ==> chain[p] != chain[q])
  }

  ghost predicate Chains(m: map<Key, Jcc>, chains: seq<seq<Jcc>>) {
    |chains| > 0 && forall idx :: 0 <= idx < |chains| ==> Chain(m, chains[idx], idx, |chains|)
  }

  /** Every entry is in the chain its key hashes to. */
  ghost predicate Covered(m: map<Key, Jcc>, chains: seq<seq<Jcc>>) {
    |chains| > 0 && forall k :: k in m ==> m[k].key == k && m[k] in chains[Hash(k, |chains|)]
  }

  lemma EntryOf(m: map<Key, Jcc>, chains: seq<seq<Jcc>>, idx: nat, p: nat)
    requires Chains(m, chains) && idx < |chains| && p < |chains[idx]|
    ensures Entry(m, chains[idx][p])
  {
    assert Chain(m, chains[idx], idx, |chains|);
  }

  /** A key no node of its chain has is not in the table. */
  lemma NoEntry(m: map<Key, Jcc>, chains: seq<seq<Jcc>>, k: Key)
    requires Covered(m, chains)
    requires var chain := chains[Hash(k, |chains|)];
      forall q :: 0 <= q < |chain| ==> chain[q].key != k
    ensures k !in m
  {
  }

  /** Entries already moved: exactly the nodes of `fill`, each in the chain its key hashes to. */
  ghost predicate Filled(m: map<Key, Jcc>, fill: seq<seq<Jcc>>, done: set<Jcc>) {
    && Chains(m, fill)
    && (forall idx, p :: 0 <= idx < |fill| && 0 <= p < |fill[idx]| ==> fill[idx][p] in done)
    && (forall x :: x in done ==> x in fill[Hash(x.key, |fill|)])
  }

  lemma FillOne(m: map<Key, Jcc>, fill: seq<seq<Jcc>>, done: set<Jcc>, x: Jcc)
    requires Filled(m, fill, done) && x !in done && Entry(m, x)
    ensures var idx := Hash(x.key, |fill|);
      Filled(m, fill[idx := [x] + fill[idx]], done + {x})
  {
    var idx := Hash(x.key, |fill|);
    var chain := [x] + fill[idx];
    assert Chain(m, chain, idx, |fill|) by {
      assert Chain(m, fill[idx], idx, |fill|);
      forall p, q | 0 <= p < q < |chain|
        ensures chain[p] != chain[q]
      {
        assert chain[q] == fill[idx][q - 1];
      }
    }
    var g := fill[idx := chain];
    forall i, p | 0 <= i < |g| && 0 <= p < |g[i]|
      ensures g[i][p] in done + {x}
    {
      if i == idx && p > 0 {
        assert g[i][p] == fill[idx][p - 1];
      }
    }
    assert chain[0] == x;
    forall y | y in done + {x}
      ensures y in g[Hash(y.key, |g|)]
    {
      if y != x && Hash(y.key, |g|) == idx {
        var p :| 0 <= p < |fill[idx]| && fill[idx][p] == y;
        assert chain[p + 1] == y;
      }
    }
  }

  /** Putting x in front of its chain links it there and leaves the other chains linked. */
  ghost predicate AllLinked(tab: array<Jcc?>, fill: seq<seq<Jcc>>)
    reads tab, (set i, p | 0 <= i < |fill| && 0 <= p < |fill[i]| :: fill[i][p])`next
  {
    tab.Length == |fill| && forall idx :: 0 <= idx < |fill| ==> Linked(tab[idx], fill[idx])
  }

  method PushFront(tab: array<Jcc?>, ghost fill: seq<seq<Jcc>>, x: Jcc, idx: nat)
    requires idx < |fill| && AllLinked(tab, fill)
    requires forall i, p :: 0 <= i < |fill| && 0 <= p < |fill[i]| ==> fill[i][p] != x
    modifies tab, x`next
    ensures AllLinked(tab, fill[idx := [x] + fill[idx]])
  {
    ghost var chain := [x] + fill[idx];
    x.next := tab[idx];
    tab[idx] := x;
    assert Linked(tab[idx], chain) by {
      assert Linked(x.next, fill[idx]);
      forall p | 0 <= p < |chain|
        ensures chain[p].next == At(chain, p + 1)
      {
        if p > 0 {
          assert chain[p] == fill[idx][p - 1];
          assert At(chain, p + 1) == At(fill[idx], p);
        }
      }
    }
  }

  lemma NothingFilled(m: map<Key, Jcc>, fill: seq<seq<Jcc>>)
    requires |fill| > 0 && forall i :: 0 <= i < |fill| ==> fill[i] == []
    ensures Filled(m, fill, {})
  {
  }

  lemma NoChains(tab: array<Jcc?>, fill: seq<seq<Jcc>>)
    requires tab.Length == |fill| && forall i :: 0 <= i < |fill| ==> fill[i] == [] && tab[i] == null
    ensures AllLinked(tab, fill)
  {
  }

  lemma FilledNodes(m: map<Key, Jcc>, fill: seq<seq<Jcc>>, done: set<Jcc>)
    requires Filled(m, fill, done)
    ensures |fill| > 0 && forall i, p :: 0 <= i < |fill| && 0 <= p < |fill[i]| ==> fill[i][p] in done
  {
  }

  /** The first p nodes of the chain have joined those moved before. */
  ghost predicate Moved(chain: seq<Jcc>, p: nat, done0: set<Jcc>, done: set<Jcc>) {
    && p <= |chain| && done0 <= done
    && (forall q :: 0 <= q < p ==> chain[q] in done)
    && (forall x :: x in done ==> x in done0 || x in chain[..p])
  }

  lemma MovedNone(chain: seq<Jcc>, done0: set<Jcc>)
    ensures Moved(chain, 0, done0, done0)
  {
  }

  /** The next node of the chain is not among those moved. */
  lemma NextToMove(m: map<Key, Jcc>, chains: seq<seq<Jcc>>, i: nat, p: nat, done0: set<Jcc>, done: set<Jcc>)
    requires Chains(m, chains) && i < |chains| && p < |chains[i]| && Moved(chains[i], p, done0, done)
    requires forall x :: x in done0 ==> Hash(x.key, |chains|) < i
    ensures var x := chains[i][p];
      && x !in done && Entry(m, x) && Moved(chains[i], p + 1, done0, done + {x})
      && (forall idx, q :: i < idx < |chains| && 0 <= q < |chains[idx]| ==> chains[idx][q] != x)
      && (forall q :: p < q < |chains[i]| ==> chains[i][q] != x)
  {
    assert Chain(m, chains[i], i, |chains|);
    var x := chains[i][p];
    assert chains[i][..p + 1] == chains[i][..p] + [x];
    forall idx, q | i < idx < |chains| && 0 <= q < |chains[idx]|
      ensures chains[idx][q] != x
    {
      assert Chain(m, chains[idx], idx, |chains|);
    }
  }

  lemma AllMoved(m: map<Key, Jcc>, chains: seq<seq<Jcc>>, i: nat, done0: set<Jcc>, done: set<Jcc>)
    requires Chains(m, chains) && i < |chains| && Moved(chains[i], |chains[i]|, done0, done)
    requires forall x :: x in done0 ==> Hash(x.key, |chains|) < i
    ensures forall x :: x in done ==> Hash(x.key, |chains|) <= i
    ensures done0 <= done && forall p :: 0 <= p < |chains[i]| ==> chains[i][p] in done
  {
    assert Chain(m, chains[i], i, |chains|);
    assert chains[i][..|chains[i]|] == chains[i];
  }

  /** Once all nodes are moved, the new chains have every entry. */
  lemma AllCovered(m: map<Key, Jcc>, chains: seq<seq<Jcc>>, fill: seq<seq<Jcc>>, done: set<Jcc>)
    requires Chains(m, chains) && Covered(m, chains) && Filled(m, fill, done)
    requires forall idx, p :: 0 <= idx < |chains| && 0 <= p < |chains[idx]| ==> chains[idx][p] in done
    ensures Chains(m, fill) && Covered(m, fill)
  {
    forall k | k in m
      ensures m[k].key == k && m[k] in fill[Hash(k, |fill|)]
    {
      assert m[k] in chains[Hash(k, |chains|)];
      assert m[k] in done;
    }
  }

  /** A last-used shortcut only ever points at entries of the block it belongs to. */
  ghost predicate LruTo(m: map<Key, Jcc>, lru: map<nat, Jcc>) {
    forall t :: t in lru ==> lru[t].key.to == t && Entry(m, lru[t])
  }

  ghost predicate LruFrom(m: map<Key, Jcc>, lru: map<nat, Jcc>) {
    forall f :: f in lru ==> lru[f].key.from == f && Entry(m, lru[f])
  }

  /** The list an arc belongs to: that of its exit, or the one for all arcs without a caller */
  function Exit(k: Key): (nat, nat) {
    if k.from == 0 then (0, 0) else (k.from, k.jmp)
  }

  /** Each entry is exactly once in the list of the exit it leaves by, and in no other. */
  ghost predicate ExitLists(m: map<Key, Jcc>, lists: map<(nat, nat), seq<Jcc>>) {
    && (forall e :: e in lists ==> forall p :: 0 <= p < |lists[e]| ==>
         Entry(m, lists[e][p]) && Exit(lists[e][p].key) == e)
    && (forall e :: e in lists ==> forall p, q :: 0 <= p < q < |lists[e]| ==> lists[e][p] != lists[e][q])
    && (forall k :: k in m ==> Exit(k) in lists && m[k] in lists[Exit(k)])
  }

  /** The integer load test the table is kept under */
  predicate Loaded(entries: nat, size: nat)
    requires size > 0
  {
    10 * entries / size <= 8
  }

  lemma QuotientBelow(x: nat, d: nat)
    requires d > 0 && x < 9 * d
    ensures x / d <= 8
  {
  }

  lemma GrowthSuffices(entries: nat, size: nat)
    requires size > 0 && Loaded(entries, size)
    ensures Loaded(entries + 1, 2 * size + 3)
  {
    var big := 2 * size + 3;
    assert 10 * entries < 9 * size;
    QuotientBelow(10 * (entries + 1), big);
  }

  lemma InsertChains(m: map<Key, Jcc>, chains: seq<seq<Jcc>>, x: Jcc)
    requires Chains(m, chains) && Covered(m, chains) && x.key !in m && x !in m.Values
    ensures var idx := Hash(x.key, |chains|);
      var n, c := m[x.key := x], chains[idx := [x] + chains[idx]];
      Chains(n, c) && Covered(n, c)
    ensures forall i, p :: 0 <= i < |chains| && 0 <= p < |chains[i]| ==> chains[i][p] != x
  {
    var idx := Hash(x.key, |chains|);
    var n, c := m[x.key := x], chains[idx := [x] + chains[idx]];
    forall i, p | 0 <= i < |chains| && 0 <= p < |chains[i]|
      ensures chains[i][p] != x && Entry(n, chains[i][p])
    {
      assert Chain(m, chains[i], i, |chains|);
      assert m[chains[i][p].key] == chains[i][p];
    }
    forall i | 0 <= i < |c|
      ensures Chain(n, c[i], i, |c|)
    {
      assert Chain(m, chains[i], i, |chains|);
      if i == idx {
        forall p, q | 0 <= p < q < |c[i]|
          ensures c[i][p] != c[i][q]
        {
          assert c[i][q] == chains[i][q - 1];
        }
      }
    }
    forall k | k in n
      ensures n[k].key == k && n[k] in c[Hash(k, |c|)]
    {
      if k == x.key {
        assert c[idx][0] == x;
      } else {
        var i := Hash(k, |c|);
        var p :| 0 <= p < |chains[i]| && chains[i][p] == m[k];
        assert i == idx ==> c[i][p + 1] == m[k];
      }
    }
  }

  function ListAt(lists: map<(nat, nat), seq<Jcc>>, e: (nat, nat)): seq<Jcc> {
    if e in lists then lists[e] else []
  }

  function HeadAt(exits: map<(nat, nat), Jcc>, spontaneous: Jcc?, e: (nat, nat)): Jcc? {
    if e.0 == 0 then spontaneous else if e in exits then exits[e] else null
  }

  /** The nextFrom links make up these lists. */
  ghost predicate ExitsLinked(exits: map<(nat, nat), Jcc>, spontaneous: Jcc?, lists: map<(nat, nat), seq<Jcc>>)
    reads (set e, p | e in lists && 0 <= p < |lists[e]| :: lists[e][p])`nextFrom
  {
    && (forall e: (nat, nat) :: e.0 != 0 || e == (0, 0) ==> HeadAt(exits, spontaneous, e) == At(ListAt(lists, e), 0))
    && forall e, p :: e in lists && 0 <= p < |lists[e]| ==> lists[e][p].nextFrom == At(lists[e], p + 1)
  }

  ghost predicate ListsIn(lists: map<(nat, nat), seq<Jcc>>, nodes: set<Jcc>) {
    forall e, p :: e in lists && 0 <= p < |lists[e]| ==> lists[e][p] in nodes
  }

  lemma FrontLinked(x: Jcc, was: seq<Jcc>)
    requires x.nextFrom == At(was, 0) && forall p :: 0 <= p < |was| ==> was[p].nextFrom == At(was, p + 1)
    ensures forall p :: 0 <= p < |was| + 1 ==> ([x] + was)[p].nextFrom == At([x] + was, p + 1)
  {
    forall p | 0 <= p < |was| + 1
      ensures ([x] + was)[p].nextFrom == At([x] + was, p + 1)
    {
      if p > 0 {
        assert ([x] + was)[p] == was[p - 1];
      }
    }
  }

  lemma InsertExits(m: map<Key, Jcc>, lists: map<(nat, nat), seq<Jcc>>, x: Jcc)
    requires ExitLists(m, lists) && x.key !in m && x !in m.Values
    ensures ExitLists(m[x.key := x], lists[Exit(x.key) := [x] + ListAt(lists, Exit(x.key))])
  {
    var n, e := m[x.key := x], Exit(x.key);
    var was: seq<Jcc> := ListAt(lists, e);
    var z: map<(nat, nat), seq<Jcc>> := lists[e := [x] + was];
    forall d, p | d in lists && 0 <= p < |lists[d]|
      ensures lists[d][p] != x && Entry(n, lists[d][p])
    {
      assert m[lists[d][p].key] == lists[d][p];
    }
    forall p, q | 0 <= p < q < |z[e]|
      ensures z[e][p] != z[e][q]
    {
      assert z[e][q] == was[q - 1];
    }
    forall p | 0 <= p < |z[e]|
      ensures Entry(n, z[e][p]) && Exit(z[e][p].key) == e
    {
      if p > 0 {
        assert z[e][p] == was[p - 1];
      }
    }
    forall k | k in n
      ensures Exit(k) in z && n[k] in z[Exit(k)]
    {
      if k == x.key {
        assert z[e][0] == x;
      } else if Exit(k) == e {
        var p :| 0 <= p < |was| && was[p] == m[k];
        assert z[e][p + 1] == m[k];
      }
    }
  }

  lemma InsertLru(m: map<Key, Jcc>, lruTo: map<nat, Jcc>, lruFrom: map<nat, Jcc>, x: Jcc)
    requires LruTo(m, lruTo) && LruFrom(m, lruFrom) && x.key !in m
    ensures LruTo(m[x.key := x], lruTo) && LruFrom(m[x.key := x], lruFrom)
  {
  }

  class Table {
    var table: array<Jcc?>
    var entries: nat
    var lruTo: map<nat, Jcc>
    var lruFrom: map<nat, Jcc>
    var exits: map<(nat, nat), Jcc>
    var spontaneous: Jcc?
    ghost var lists: map<(nat, nat), seq<Jcc>>
    ghost var chains: seq<seq<Jcc>>
    ghost var m: map<Key, Jcc>

    ghost var nodes: set<Jcc>

    /** The chains are what they should be and the table links them. */
    ghost predicate Sound()
      reads this, table, nodes
    {
      && m.Values <= nodes && Chains(m, chains) && Covered(m, chains)
      && AllLinked(table, chains)
    }

    ghost predicate Valid()
      reads this, table, nodes
    {
      && Sound()
      && entries == |m| && Loaded(entries, table.Length)
      && LruTo(m, lruTo) && LruFrom(m, lruFrom) && Listed()
    }

    /** Every entry is in the list of its exit. */
    ghost predicate Listed()
      reads this, nodes`nextFrom
    {
      m.Values <= nodes && ExitLists(m, lists) && ListsIn(lists, nodes) && ExitsLinked(exits, spontaneous, lists)
    }

    constructor ()
      ensures Valid() && m == map[] && fresh(table) && nodes == {}
    {
      table := new Jcc?[4437](_ => null);
      entries := 0;
      lruTo, lruFrom, exits, spontaneous, lists := map[], map[], map[], null, map[];
      chains := seq(4437, _ => []);
      m, nodes := map[], {};
    }

    /** The hash lookup: walk the chain. */
    method Lookup(k: Key) returns (j: Jcc?)
      requires Valid()
      ensures if k in m then j == m[k] else j == null
    {
      hide Covered, Chains, LruTo, LruFrom, ExitLists, Loaded, Hash;
      SoundSize();
      var idx := Hash(k, table.Length);
      j := table[idx];
      ghost var p := 0;
      ghost var chain := chains[idx];
      assert Linked(j, chain);
      while j != null
        invariant 0 <= p <= |chain| && j == At(chain, p)
        invariant forall q :: 0 <= q < p ==> chain[q].key != k
        decreases |chain| - p
      {
        if j.key == k {
          EntryOf(m, chains, idx, p);
          return;
        }
        j := j.next;
        p := p + 1;
      }
      NoEntry(m, chains, k);
    }

    /** resize_jcc_table: every node is unlinked from its old chain and put in front of a new one. */
    method Resize()
      requires Sound()
      modifies this`table, this`chains, nodes`next
      ensures Sound()
      ensures fresh(table) && table.Length == 2 * old(table.Length) + 3
    {
      hide Filled, Covered, Hash, Linked;
      var size := 2 * table.Length + 3;
      var grown := new Jcc?[size](_ => null);
      ghost var fill: seq<seq<Jcc>> := seq(size, _ => []);
      ghost var done: set<Jcc> := {};
      NothingFilled(m, fill);
      NoChains(grown, fill);
      for i := 0 to table.Length
        invariant table == old(table) && chains == old(chains) && fresh(grown) && |fill| == size
        invariant AllLinked(grown, fill) && Filled(m, fill, done)
        invariant forall idx :: i <= idx < |chains| ==> Linked(table[idx], chains[idx])
        invariant forall x :: x in done ==> Hash(x.key, |chains|) < i
        invariant forall idx, p :: 0 <= idx < i && 0 <= p < |chains[idx]| ==> chains[idx][p] in done
      {
        fill, done := MoveChain(i, grown, fill, done);
      }
      AllCovered(m, chains, fill, done);
      table := grown;
      chains := fill;
    }

    /** One chain moved over */
    method MoveChain(i: nat, grown: array<Jcc?>, ghost fill0: seq<seq<Jcc>>, ghost done0: set<Jcc>)
      returns (ghost fill: seq<seq<Jcc>>, ghost done: set<Jcc>)
      requires m.Values <= nodes && Chains(m, chains) && table.Length == |chains| && i < |chains| && grown != table
      requires AllLinked(grown, fill0) && Filled(m, fill0, done0)
      requires forall idx :: i <= idx < |chains| ==> Linked(table[idx], chains[idx])
      requires forall x :: x in done0 ==> Hash(x.key, |chains|) < i
      modifies grown, nodes`next
      ensures |fill| == |fill0| && AllLinked(grown, fill) && Filled(m, fill, done)
      ensures forall idx :: i < idx < |chains| ==> Linked(table[idx], chains[idx])
      ensures forall x :: x in done ==> Hash(x.key, |chains|) <= i
      ensures done0 <= done && forall p :: 0 <= p < |chains[i]| ==> chains[i][p] in done
    {
      hide Filled, Moved, Covered, Hash;
      fill, done := fill0, done0;
      ghost var chain, p := chains[i], 0;
      MovedNone(chain, done0);
      var curr := table[i];
      while curr != null
        invariant 0 <= p <= |chain| && curr == At(chain, p)
        invariant forall q :: p <= q < |chain| ==> chain[q].next == At(chain, q + 1)
        invariant |fill| == |fill0| && AllLinked(grown, fill) && Filled(m, fill, done)
        invariant forall idx :: i < idx < |chains| ==> Linked(table[idx], chains[idx])
        invariant Moved(chain, p, done0, done)
        decreases |chain| - p
      {
        var x: Jcc := curr;
        NextToMove(m, chains, i, p, done0, done);
        assert chain[p] == x;
        curr := x.next;
        FilledNodes(m, fill, done);
        var idx := Hash(x.key, grown.Length);
        FillOne(m, fill, done, x);
        PushFront(grown, fill, x, idx);
        fill, done := fill[idx := [x] + fill[idx]], done + {x};
        p := p + 1;
      }
      AllMoved(m, chains, i, done0, done);
    }

    /** new_jcc: count, grow if too full, and link the new node into its exit's list and its chain. */
    method NewJcc(k: Key) returns (x: Jcc)
      requires Valid() && k !in m
      modifies this, table, nodes
      ensures Valid() && fresh(x) && x.key == k && m == old(m)[k := x] && nodes == old(nodes) + {x}
      ensures table == old(table) || fresh(table)
    {
      hide Linked, AllLinked, Chain, Chains, Covered, LruTo, LruFrom, ExitLists, Hash, Loaded;
      SoundSize();
      if !Loaded(entries + 1, table.Length) {
        GrowthSuffices(entries, table.Length);
        Resize();
      }
      entries := entries + 1;
      x := new Jcc(k);
      Link(x);
    }

    lemma SoundSize()
      requires Sound()
      ensures |chains| == table.Length > 0
    {
    }

    /** The new node put in front of the list of its exit, or of the arcs without a caller */
    method LinkExit(x: Jcc)
      requires Listed() && x !in nodes
      modifies this`exits, this`spontaneous, this`lists, x`nextFrom
      ensures lists == old(lists)[Exit(x.key) := [x] + ListAt(old(lists), Exit(x.key))]
      ensures ExitsLinked(exits, spontaneous, lists) && ListsIn(lists, nodes + {x})
    {
      hide ExitLists;
      ghost var e := Exit(x.key);
      ghost var was := ListAt(lists, e);
      if x.key.from != 0 {
        x.nextFrom := if (x.key.from, x.key.jmp) in exits then exits[(x.key.from, x.key.jmp)] else null;
        exits := exits[(x.key.from, x.key.jmp) := x];
      } else {
        x.nextFrom := spontaneous;
        spontaneous := x;
      }
      lists := lists[e := [x] + was];
      FrontLinked(x, was);
    }

    /** The new node put in front of its chain */
    method LinkHash(x: Jcc)
      requires Sound() && x !in nodes && x.key !in m
      modifies this`chains, table, x`next
      ensures AllLinked(table, chains) && Chains(m[x.key := x], chains) && Covered(m[x.key := x], chains)
    {
      hide Linked, AllLinked, Chain, Chains, Covered, Hash;
      SoundSize();
      assert x !in m.Values;
      InsertChains(m, chains, x);
      var idx := Hash(x.key, table.Length);
      PushFront(table, chains, x, idx);
      chains := chains[idx := [x] + chains[idx]];
    }

    method Link(x: Jcc)
      requires Sound() && x !in nodes && x.key !in m && entries == |m| + 1
      requires table.Length > 0 && Loaded(entries, table.Length)
      requires LruTo(m, lruTo) && LruFrom(m, lruFrom) && Listed()
      modifies this`exits, this`spontaneous, this`lists, this`chains, this`m, this`nodes, table, x`next, x`nextFrom
      ensures Valid() && m == old(m)[x.key := x] && nodes == old(nodes) + {x}
    {
      hide Linked, AllLinked, Chain, Chains, Covered, LruTo, LruFrom, ExitLists, Hash, Loaded, ExitsLinked, ListsIn;
      hide Exit, ListAt;
      assert x !in m.Values;
      InsertExits(m, lists, x);
      InsertLru(m, lruTo, lruFrom, x);
      ghost var sound := AllLinked(table, chains);
      LinkExit(x);
      assert sound == AllLinked(table, chains);
      ghost var linked := ExitsLinked(exits, spontaneous, lists);
      LinkHash(x);
      assert linked == ExitsLinked(exits, spontaneous, lists);
      m := m[x.key := x];
      nodes := nodes + {x};
    }

    /** Set both shortcuts. */
    method Remember(x: Jcc)
      requires Valid() && Entry(m, x)
      modifies this`lruTo, this`lruFrom
      ensures Valid()
    {
      hide Linked, AllLinked, Chain, Chains, Covered, ExitLists, Hash, Loaded;
      lruFrom := lruFrom[x.key.from := x];
      lruTo := lruTo[x.key.to := x];
    }

    /** get_jcc: the entry of the arc, made if there was none. */
    method GetJcc(k: Key) returns (x: Jcc)
      requires Valid()
      modifies this, table, nodes
      ensures Valid() && x.key == k && k in m && m[k] == x
      ensures
        if k in old(m) then m == old(m) && nodes == old(nodes)
        else m == old(m)[k := x] && fresh(x) && nodes == old(nodes) + {x}
      ensures table == old(table) || fresh(table)
    {
      hide Linked, Chains, Covered, ExitLists, Hash, Loaded, AllLinked;
      if k.to in lruTo {
        x := lruTo[k.to];
        if x.key.from == k.from && x.key.jmp == k.jmp {
          return;
        }
      }
      if k.from in lruFrom {
        x := lruFrom[k.from];
        if x.key.to == k.to && x.key.jmp == k.jmp {
          return;
        }
      }
      var found := Lookup(k);
      if found == null {
        x := NewJcc(k);
      } else {
        EntryKey(m, chains, k);
        x := found;
      }
      Remember(x);
    }
  }

  lemma EntryKey(m: map<Key, Jcc>, chains: seq<seq<Jcc>>, k: Key)
    requires Covered(m, chains) && k in m
    ensures m[k].key == k
  {
  }

  /** Over any sequence of calls the table is a plain map: equal arcs get the same entry, different arcs
      different ones, and there are as many entries as different arcs. */
  method Calls(keys: seq<Key>) returns (t: Table, out: seq<Jcc>)
    ensures t.Valid() && |out| == |keys|
    ensures forall i :: 0 <= i < |keys| ==> out[i].key == keys[i]
    ensures forall i, j :: 0 <= i < |keys| && 0 <= j < |keys| ==> (out[i] == out[j] <==> keys[i] == keys[j])
    ensures t.m.Keys == set i | 0 <= i < |keys| :: keys[i]
    ensures t.entries == |set i | 0 <= i < |keys| :: keys[i]|
  {
    hide Linked, AllLinked, Chain, Chains, Covered, LruTo, LruFrom, ExitLists, Hash, Loaded, Returned, Table.Sound;
    hide Table.Listed;
    t := new Table();
    out := [];
    ReturnedNone(t.m);
    for n := 0 to |keys|
      invariant fresh(t) && t.Valid() && fresh(t.table) && fresh(t.nodes) && |out| == n
      invariant Returned(t.m, keys[..n], out)
    {
      ghost var was := t.m;
      var x := t.GetJcc(keys[n]);
      ReturnedNext(was, t.m, keys[..n], out, keys[n], x);
      assert keys[..n] + [keys[n]] == keys[..n + 1];
      out := out + [x];
    }
    assert keys[..|keys|] == keys;
    ReturnedMeans(t.m, keys, out);
  }

  lemma ReturnedNone(m: map<Key, Jcc>)
    requires m == map[]
    ensures Returned(m, [], [])
  {
  }

  lemma ReturnedMeans(m: map<Key, Jcc>, keys: seq<Key>, out: seq<Jcc>)
    requires Returned(m, keys, out)
    ensures |out| == |keys| && forall i :: 0 <= i < |keys| ==> out[i].key == keys[i]
    ensures forall i, j :: 0 <= i < |keys| && 0 <= j < |keys| ==> (out[i] == out[j] <==> keys[i] == keys[j])
    ensures m.Keys == (set i | 0 <= i < |keys| :: keys[i]) && |m| == |set i | 0 <= i < |keys| :: keys[i]|
  {
    assert |m.Keys| == |m|;
  }

  /** The entries handed out for `keys` so far */
  ghost predicate Returned(m: map<Key, Jcc>, keys: seq<Key>, out: seq<Jcc>) {
    && |out| == |keys| && m.Keys == (set i | 0 <= i < |keys| :: keys[i])
    && forall i :: 0 <= i < |keys| ==> out[i].key == keys[i] && keys[i] in m && m[keys[i]] == out[i]
  }

  lemma ReturnedNext(was: map<Key, Jcc>, m: map<Key, Jcc>, keys: seq<Key>, out: seq<Jcc>, k: Key, x: Jcc)
    requires Returned(was, keys, out) && x.key == k && k in m && m[k] == x
    requires m == if k in was then was else was[k := x]
    ensures Returned(m, keys + [k], out + [x])
  {
    var more := keys + [k];
    assert forall i :: 0 <= i < |keys| ==> more[i] == keys[i];
    assert more[|keys|] == k;
    forall y | y in m
      ensures exists i :: 0 <= i < |more| && more[i] == y
    {
      if y in was {
        var i :| 0 <= i < |keys| && keys[i] == y;
        assert more[i] == y;
      }
    }
  }
}
