/** The loops of cg_merge.c over one profile at a time: scanning numbers, entering count lines, merging a second
    profile in, reading and writing a file. */
module ProfileFile {
  import opened MachineWords
  import opened Wrappers
  import opened WordFM
  import opened WordFMap
  import opened ProfileMap
  import opened ProfileText
  import opened CountsMap
  import opened FunsMap

  /** parse_ULong from position `from` */
  method ScanULong(s: string, from: nat) returns (ok: bool, value: nat, next: nat)
    requires from <= |s|
    ensures from <= next <= |s| && ParseULong(s[from..]) == Scan(ok, value, s[next..])
  {
    next := from;
    while next < |s| && IsSpace(s[next])
      invariant from <= next <= |s| && SkipSpace(s[from..]) == SkipSpace(s[next..])
    {
      assert s[next..][1..] == s[next + 1..];
      next := next + 1;
    }
    if next == |s| || !IsDigit(s[next]) {
      return false, 0, next;
    }
    value := 0;
    ghost var start := next;
    while next < |s| && IsDigit(s[next])
      invariant start <= next <= |s| && ParseDigits(s[start..], 0) == ParseDigits(s[next..], value)
    {
      assert s[next..][1..] == s[next + 1..];
      value := (value * 10 + (s[next] - '0') as nat) % W64;
      next := next + 1;
    }
    ok := true;
  }

  /** splitUpCountsLine */
  method SplitLine(s: string, least: nat) returns (r: Parsed<seq<nat>>)
    ensures r == Split(s, least)
  {
    hide ParseULong;
    var ns: seq<nat>, pos := [], 0;
    assert s[0..] == s;
    while true
      invariant pos <= |s|
      invariant ParseAll(s).0 == ns + ParseAll(s[pos..]).0 && ParseAll(s).1 == ParseAll(s[pos..]).1
      decreases |s| - pos
    {
      var ok, v, next := ScanULong(s, pos);
      if !ok {
        assert ParseAll(s[pos..]) == ([], s[next..]);
        pos := next;
        break;
      }
      assert |s[next..]| < |s[pos..]|;
      assert ParseAll(s[pos..]).0 == [v] + ParseAll(s[next..]).0;
      ns, pos := ns + [v], next;
    }
    assert ParseAll(s).0 == ns && ParseAll(s).1 == s[pos..];
    if pos < |s| {
      return Err("garbage in counts line");
    }
    if |ns| < least {
      return Err("too few counts in count line");
    }
    return Ok(ns);
  }

  /** How a merge ends: done, refused because the events lines differ, or stopped by the iterator's stack */
  datatype Merged = Done | Differ | Overflow

  /** A profile on the heap: an outer map to inner maps to count vectors */
  class CacheProfFile {
    const n: nat
    const desc: seq<string>
    const cmd: string
    const events: string
    const outer: FM<FileFn, InnerMap>
    const summary: array<nat>
    ghost var vals: Outer
    ghost var feet: set<object>

    ghost function Own(): set<object>
      reads this, outer
    {
      {this, outer, outer.nodeStack, outer.numStack, summary} + Nodes(outer.tree)
    }

    /** Every object the profile is made of */
    ghost function Foot(): set<object>
      reads this, outer
    {
      Own() + feet
    }

    ghost predicate Shape()
      reads this, outer, Foot()
    {
      && outer.Valid() && outer.kCmp == CmpFileFn && n == CountEvents(events, 6)
      && Own() !! feet && MapsOk(Inorder(outer.tree), n, feet)
      && vals == FunVals(Inorder(outer.tree)) && summary.Length == n
    }

    /** The running summary is the sum of all rows. */
    ghost predicate Valid()
      reads this, outer, Foot()
    {
      Shape() && Good(vals, n) && summary[..] == SumOf(vals, n)
    }

    constructor (desc: seq<string>, cmd: string, events: string)
      ensures Valid() && fresh(Foot()) && this.desc == desc && this.cmd == cmd && this.events == events
      ensures vals == [] && summary[..] == Zeroed(n)
    {
      this.desc, this.cmd, this.events := desc, cmd, events;
      var k := CountEvents(events, 6);
      n := k;
      FileFnOrder();
      outer := new FM(CmpFileFn);
      summary := new nat[k](_ => 0);
      vals, feet := [], {};
      new;
      EmptySum(n);
      assert summary[..] == Zeroed(n);
    }

    /** addToFM on the outer map with a map of its own */
    method InsertMap(key: FileFn, m: InnerMap)
      requires Shape() && Find(Inorder(outer.tree), key).None? && m.Valid() && m.n == n && m.repr !! Foot()
      modifies this`vals, this`feet, outer, Nodes(outer.tree)
      ensures Shape() && vals == Put(old(vals), key, m.rows, CmpFileFn) && feet == old(feet) + m.repr
      ensures (forall o :: o in Own() && o !in old(Own()) ==> fresh(o))
      ensures Inorder(outer.tree) == Put(old(Inorder(outer.tree)), key, m, CmpFileFn)
    {
      hide Put, Inorder, Find, Ascending, Avl, Distinct, InnerMap.Valid, CountEvents, FunVals, MapsOk;
      hide ShapeOf, Grow, Balanced;
      ghost var s := Inorder(outer.tree);
      ghost var u := Put(s, key, m, CmpFileFn);
      MapInserted(s, key, m, n, feet);
      ghost var ok, after := MapsOk(u, n, feet + m.repr), FunVals(u);
      outer.Add(key, m);
      assert ok == MapsOk(u, n, feet + m.repr) && after == FunVals(u);
      feet := feet + m.repr;
      vals := after;
    }

    /** One row entered into the map of a function that is already there: a vector of the caller's own may be kept,
        another is added or copied.  `free` tells whether the vector stays outside. */
    method AddRowAt(ghost k: nat, key: FileFn, m: InnerMap, line: nat, c: array<nat>, own: bool) returns (free: bool)
      requires Shape() && k < |Inorder(outer.tree)| && Inorder(outer.tree)[k] == (key, m)
      requires c.Length == n && c !in Foot()
      modifies this`vals, this`feet, if m in feet then m.repr else {}
      ensures Shape() && GoodInner(old(m.rows), n)
      ensures vals == old(vals)[k := (key, AddToInner(old(m.rows), line, old(c[..])))]
      ensures old(feet) <= feet && fresh(feet - old(feet) - {c}) && (free <==> c !in feet) && (!own ==> free)
      ensures c[..] == old(c[..]) && vals[k].1 == m.rows && m in feet && old(m.repr) <= m.repr
      ensures forall o :: o in m.repr && o !in old(m.repr) && o != c ==> fresh(o)
      ensures Own() == old(Own()) && (own ==> (free <==> Find(old(m.rows), line).Some?))
    {
      hide Inorder, Avl, Distinct, Ascending, InnerMap.Valid, CountEvents, FunVals, MapsOk, AddToInner, Find;
      ghost var s := Inorder(outer.tree);
      TakeApart(s, k, n, feet);
      MapRows(m);
      FunValsWithout(s, k);
      ghost var rest, others := feet - m.repr, FunVals(Without(s, k));
      ghost var ok := MapsOk(Without(s, k), n, rest);
      assert allocated(Nodes(outer.tree));
      ghost var valid := outer.Valid();
      free := true;
      if own {
        free := m.AddCountsToMap(line, c);
      } else {
        m.MergeRow(line, c);
      }
      assert ok == MapsOk(Without(s, k), n, rest) && others == FunVals(Without(s, k));
      assert valid == outer.Valid();
      OwnRepr(m);
      Reseat(k, m, rest);
    }

    /** The profile taken up again after one of its maps changed */
    ghost method Reseat(k: nat, m: InnerMap, rest: set<object>)
      requires outer.Valid() && outer.kCmp == CmpFileFn && n == CountEvents(events, 6) && summary.Length == n
      requires k < |Inorder(outer.tree)| && Inorder(outer.tree)[k].1 == m
      requires MapsOk(Without(Inorder(outer.tree), k), n, rest)
      requires m.Valid() && m.n == n && m.repr !! rest && Own() !! rest + m.repr
      requires |vals| == |Inorder(outer.tree)| && vals[..k] + vals[k + 1..] == FunVals(Without(Inorder(outer.tree), k))
      modifies this`vals, this`feet
      ensures Shape() && feet == rest + m.repr
      ensures vals == old(vals)[k := (Inorder(outer.tree)[k].0, m.rows)]
    {
      hide Inorder, Avl, Distinct, Ascending, InnerMap.Valid, CountEvents, FunVals, MapsOk;
      var s := Inorder(outer.tree);
      PutTogether(s, k, n, rest);
      FunValsWithout(s, k);
      ReplacedAt(vals, FunVals(s), k);
      MapsIn(s, n, rest + m.repr);
      var whole, after := MapsOk(s, n, rest + m.repr), FunVals(s);
      feet := rest + m.repr;
      vals := after;
      assert whole == MapsOk(s, n, feet) && after == FunVals(s);
    }

    /** lookupFM on the outer map */
    method LookupMap(key: FileFn) returns (m: Option<InnerMap>, ghost k: nat)
      requires Shape()
      ensures Shape() && m == Find(Inorder(outer.tree), key)
      ensures m.Some? ==>
        && m.value.n == n && k < |Inorder(outer.tree)| && Inorder(outer.tree)[k] == (key, m.value)
        && m.value in feet && m.value.repr <= feet
      ensures Find(vals, key) == if m.Some? then Some(m.value.rows) else None
      ensures m.Some? ==> k < |vals| && vals[k].0 == key
    {
      hide Inorder, Avl, Distinct, Ascending, InnerMap.Valid, CountEvents, FunVals, Find;
      ghost var s := Inorder(outer.tree);
      assert allocated(Foot());
      ghost var shape := Shape();
      m := outer.Lookup(key);
      assert shape == Shape() && vals == FunVals(s);
      WordFMap.FindMap(s, key);
      FindIn(s, key);
      FunValsFind(s, key);
      k := 0;
      if m.Some? {
        k :| 0 <= k < |s| && s[k] == (key, m.value);
        FunValsAt(s, k);
        assert MapOk(s[k].1, n, feet);
      }
    }

    /** The map of a function, made if there was none */
    method FindOrMake(key: FileFn) returns (m: InnerMap, ghost k: nat)
      requires Shape() && Ascending(vals, CmpFileFn)
      modifies this`vals, this`feet, outer, Nodes(outer.tree)
      ensures Shape() && k < |Inorder(outer.tree)| && Inorder(outer.tree)[k] == (key, m) && m in feet && m.repr <= feet
      ensures m.rows == InnerAt(old(vals), key) && m.n == n && k < |vals| && vals[k].0 == key
      ensures vals == if Find(old(vals), key).Some? then old(vals) else Put(old(vals), key, [], CmpFileFn)
      ensures old(feet) <= feet && fresh(feet - old(feet)) && (forall o :: o in Own() && o !in old(Own()) ==> fresh(o))
    {
      hide Inorder, Find, Put, MapsOk, FunVals, Ascending, CountEvents, Shape;
      var found;
      found, k := LookupMap(key);
      if found.Some? {
        m := found.value;
      } else {
        m, k := MakeMap(key);
      }
    }

    /** A new function, with a new and empty map */
    method MakeMap(key: FileFn) returns (m: InnerMap, ghost k: nat)
      requires Shape() && Find(Inorder(outer.tree), key).None?
      modifies this`vals, this`feet, outer, Nodes(outer.tree)
      ensures Shape() && k < |Inorder(outer.tree)| && Inorder(outer.tree)[k] == (key, m) && m in feet && m.repr <= feet
      ensures m.rows == [] && m.n == n && vals == Put(old(vals), key, [], CmpFileFn) && k < |vals| && vals[k].0 == key
      ensures old(feet) <= feet && fresh(feet - old(feet)) && (forall o :: o in Own() && o !in old(Own()) ==> fresh(o))
    {
      hide Inorder, Avl, Distinct, Ascending, InnerMap.Valid, CountEvents, FunVals, Find, Put, MapsOk;
      ghost var s := Inorder(outer.tree);
      FileFnOrder();
      assert allocated(Foot());
      ghost var shape, mine := Shape(), Own();
      m := new InnerMap(n);
      assert shape == Shape() && mine == Own();
      OwnRepr(m);
      k := PutSplit(s, key, m, CmpFileFn);
      InsertMap(key, m);
      FunValsAt(Inorder(outer.tree), k);
    }

    /** Counts added to the running summary */
    method AddSummary(c: Counts)
      requires Shape() && |c| == n
      modifies summary
      ensures Shape() && summary[..] == AddCounts(old(summary[..]), c)
    {
      hide Inorder, Avl, Distinct, Ascending, CountEvents, FunVals, MapsOk;
      assert allocated(Foot());
      ghost var s := Inorder(outer.tree);
      MapsIn(s, n, feet);
      ghost var valid, ok, r := outer.Valid(), MapsOk(s, n, feet), FunVals(s);
      AddInto(summary, c);
      assert valid == outer.Valid() && ok == MapsOk(s, n, feet) && r == FunVals(s);
    }

    /** One row of counts entered, with a vector made for it */
    method EnterRow(key: FileFn, line: nat, c: array<nat>) returns (free: bool)
      requires Shape() && Good(vals, n) && c.Length == n && c !in Foot()
      modifies Foot()
      ensures Shape() && vals == AddRow(old(vals), key, line, c[..])
      ensures c[..] == old(c[..]) && summary[..] == old(summary[..]) && (free <==> c !in Foot())
      ensures free <==> Find(InnerAt(old(vals), key), line).Some?
      ensures forall o :: o in Foot() && o !in old(Foot()) && o != c ==> fresh(o)
    {
      hide Inorder, Put, Find, AddToInner, CountEvents, MapsOk, FunVals, Avl, Distinct;
      assert allocated(Foot());
      ghost var was := vals;
      InnerGood(was, key, n);
      var m;
      ghost var k;
      m, k := FindOrMake(key);
      free := AddRowAt(k, key, m, line, c, true);
      EnteredRow(was, key, AddToInner(InnerAt(was, key), line, c[..]), k);
    }

    /** handle_counts: one row entered, and its counts added to the running summary.  The vector made for the row
        is free for the caller to release exactly if the profile did not keep it. */
    method HandleCounts(fl: string, fn: string, line: string)
      returns (r: Parsed<()>, newCounts: array?<nat>, free: bool)
      requires Valid()
      modifies Foot()
      ensures Valid() && forall o :: o in Foot() && o !in old(Foot()) ==> fresh(o)
      ensures var sp := Split(line, 2);
        if sp.Err? then r == Err(sp.message) && vals == old(vals)
        else if |sp.value| - 1 != n then r == Err("# counts doesn't match # events") && vals == old(vals)
        else r == Ok(()) && vals == AddRow(old(vals), FileFn(fl, fn), sp.value[0], sp.value[1..])
      ensures r.Ok? ==> newCounts != null && fresh(newCounts) && (free <==> newCounts !in Foot())
      ensures r.Ok? ==> (free <==> Find(InnerAt(old(vals), FileFn(fl, fn)), Split(line, 2).value[0]).Some?)
    {
      hide SumOf, Good, AddRow, Split, CountEvents, Shape;
      newCounts, free := null, false;
      assert allocated(Foot());
      ghost var valid, foot := Valid(), Foot();
      var sp := SplitLine(line, 2);
      assert valid == Valid() && foot == Foot();
      if sp.Err? {
        return Err(sp.message), newCounts, free;
      }
      TwoNumbers(line, sp.value);
      if |sp.value| - 1 != n {
        return Err("# counts doesn't match # events"), newCounts, free;
      }
      r := Ok(());
      newCounts, free := Enter(FileFn(fl, fn), sp.value[0], sp.value[1..]);
    }

    /** A row of counts entered and added to the summary */
    method Enter(key: FileFn, line: nat, counts: Counts) returns (c: array<nat>, free: bool)
      requires Valid() && |counts| == n
      modifies Foot()
      ensures Valid() && vals == AddRow(old(vals), key, line, counts)
      ensures c[..] == counts && (free <==> Find(InnerAt(old(vals), key), line).Some?)
      ensures fresh(c) && (free <==> c !in Foot()) && forall o :: o in Foot() && o !in old(Foot()) ==> fresh(o)
    {
      hide SumOf, Good, AddRow, CountEvents, Shape;
      assert allocated(Foot());
      ghost var valid, foot, was := Valid(), Foot(), vals;
      c := new nat[n](i requires 0 <= i < |counts| => counts[i]);
      assert c[..] == counts;
      assert valid == Valid() && foot == Foot();
      SumAddRow(was, key, line, counts);
      free := EnterRow(key, line, c);
      AddSummary(counts);
    }

    /** One whole iteration over the functions; `ok` tells whether the iterator's assertions hold. */
    method Bindings() returns (ok: bool, s: seq<Fun>)
      requires Shape()
      modifies outer.nodeStack, outer.numStack, outer`stackTop, outer`visits
      ensures Shape() && (ok <==> LeftDepth(outer.tree) <= WFM_STKMAX) && (ok ==> s == Inorder(outer.tree))
      ensures summary[..] == old(summary[..])
    {
      hide Inorder, Avl, Distinct, Ascending, CountEvents, FunVals, MapsOk, LeftDepth;
      assert allocated(Foot());
      ghost var t := Inorder(outer.tree);
      MapsIn(t, n, feet);
      ghost var maps, r := MapsOk(t, n, feet), FunVals(t);
      ok, s := outer.Walk();
      assert maps == MapsOk(t, n, feet) && r == FunVals(t);
    }

    /** One whole iteration over the rows of a function */
    method RowsAt(ghost k: nat, m: InnerMap) returns (ok: bool, rows: seq<Row>)
      requires Shape() && k < |Inorder(outer.tree)| && Inorder(outer.tree)[k].1 == m
      modifies if m in feet then {m.fm, m.fm.nodeStack, m.fm.numStack} else {}
      ensures (ok ==> Shape()) && (ok <==> LeftDepth(m.fm.tree) <= WFM_STKMAX)
      ensures ok ==>
        && rows == Inorder(m.fm.tree) && RowVals(rows) == m.rows && Arrays(rows) <= feet
        && Separate(rows, n) && Ascending(rows, CmpLine)
      ensures m.fm.tree == old(m.fm.tree) && Own() == old(Own())
    {
      hide Inorder, Avl, Distinct, Ascending, CountEvents, FunVals, MapsOk, LeftDepth, RowVals, Separate;
      ghost var s := Inorder(outer.tree);
      assert allocated(Foot());
      TakeApart(s, k, n, feet);
      MapsIn(s, n, feet);
      ghost var rest, r, tree := feet - m.repr, FunVals(s), m.fm.tree;
      ghost var others, valid := MapsOk(Without(s, k), n, rest), outer.Valid();
      ok, rows := m.Bindings();
      assert others == MapsOk(Without(s, k), n, rest) && valid == outer.Valid() && r == FunVals(s);
      if ok {
        PutTogether(s, k, n, rest);
        assert rest + m.repr == feet;
      }
    }

    /** The inner loop of the merge: the rows of another profile's function go into one of this profile's. */
    method MergeRows(ghost k: nat, key: FileFn, m: InnerMap, rows: seq<Row>)
      requires Shape() && k < |Inorder(outer.tree)| && Inorder(outer.tree)[k] == (key, m) && m in feet
      requires Ascending(rows, CmpLine) && Separate(rows, n) && Outside(rows, Foot())
      modifies this`vals, this`feet, m.repr
      ensures Shape() && GoodInner(old(m.rows), n) && GoodInner(old(RowVals(rows)), n)
      ensures vals == old(vals)[k := (key, MergeInner(old(m.rows), old(RowVals(rows)), n))]
      ensures RowVals(rows) == old(RowVals(rows)) && Outside(rows, Foot())
      ensures old(feet) <= feet && fresh(feet - old(feet)) && Own() == old(Own())
    {
      hide Inorder, CountEvents, MapsOk, FunVals, AddToInner, MergeInner, GoodInner, Shape, RowVals, Separate;
      hide Ascending;
      ghost var s, r, was, start := Inorder(outer.tree), RowVals(rows), vals, m.rows;
      ShapeAt(k, m);
      RowValsGood(rows, n);
      RowLengths(rows, n);
      assert r[0..] == r;
      var i := 0;
      while i < |rows|
        invariant i <= |rows| && Shape() && Inorder(outer.tree) == s && m in feet
        invariant RowVals(rows) == r && Outside(rows, Foot())
        invariant GoodInner(m.rows, n) && GoodInner(r[i..], n)
        invariant MergeInner(m.rows, r[i..], n) == MergeInner(start, r, n)
        invariant vals == was[k := (key, m.rows)]
        invariant forall o :: o in m.repr && o !in old(m.repr) ==> fresh(o)
        invariant old(feet) <= feet && fresh(feet - old(feet)) && Own() == old(Own())
      {
        RowValsAt(rows, i);
        MergeInnerHead(m.rows, r[i..], n);
        assert r[i..][0] == r[i] && r[i..][1..] == r[i + 1..];
        MergeStep(k, key, m, rows, i);
        i := i + 1;
      }
      MergeInnerEmpty(m.rows, r[i..], n);
    }

    /** What is known of the k-th function */
    lemma ShapeAt(k: nat, m: InnerMap)
      requires Shape() && k < |Inorder(outer.tree)| && Inorder(outer.tree)[k].1 == m
      ensures m in feet && m.fm in feet && m.fm.nodeStack in feet && m.fm.numStack in feet
      ensures m.Valid() && m.n == n && m.repr <= feet && GoodInner(m.rows, n)
      ensures |vals| == |Inorder(outer.tree)| && vals[k] == (Inorder(outer.tree)[k].0, m.rows)
    {
      assert MapOk(Inorder(outer.tree)[k].1, n, feet);
      MapRows(m);
      FunValsAt(Inorder(outer.tree), k);
    }

    /** One round of that loop */
    method MergeStep(ghost k: nat, key: FileFn, m: InnerMap, rows: seq<Row>, i: nat)
      requires Shape() && k < |Inorder(outer.tree)| && Inorder(outer.tree)[k] == (key, m) && m in feet
      requires i < |rows| && rows[i].1.Length == n && Outside(rows, Foot())
      modifies this`vals, this`feet, m.repr
      ensures Shape() && Inorder(outer.tree) == old(Inorder(outer.tree)) && m in feet
      ensures GoodInner(old(m.rows), n) && m.rows == AddToInner(old(m.rows), rows[i].0, old(rows[i].1[..]))
      ensures vals == old(vals)[k := (key, m.rows)]
      ensures RowVals(rows) == old(RowVals(rows)) && Outside(rows, Foot())
      ensures forall o :: o in m.repr && o !in old(m.repr) ==> fresh(o)
      ensures old(feet) <= feet && fresh(feet - old(feet)) && Own() == old(Own())
    {
      hide Inorder, CountEvents, MapsOk, FunVals, AddToInner, GoodInner, RowVals, Ascending, Avl, Distinct;
      ShapeAt(k, m);
      assert allocated(Foot()) && allocated(Arrays(rows));
      ghost var r := RowVals(rows);
      var free := AddRowAt(k, key, m, rows[i].0, rows[i].1, false);
      assert r == RowVals(rows);
      ShapeAt(k, m);
    }

    /** A function of another profile that this one has too: its rows are merged in. */
    method MergeKnown(ghost k: nat, key: FileFn, m: InnerMap, src: CacheProfFile, ghost j: nat, sm: InnerMap)
      returns (ok: bool)
      requires Shape() && k < |Inorder(outer.tree)| && Inorder(outer.tree)[k] == (key, m) && m in feet && m.repr <= feet
      requires src.Shape() && src.n == n && Foot() !! src.Foot()
      requires j < |Inorder(src.outer.tree)| && Inorder(src.outer.tree)[j] == (key, sm) && sm in src.feet
      modifies this`vals, this`feet, m.repr, sm.fm, sm.fm.nodeStack, sm.fm.numStack
      ensures (ok ==> src.Shape()) && src.Own() == old(src.Own())
      ensures src.feet == old(src.feet) && sm.fm.tree == old(sm.fm.tree)
      ensures ok <==> LeftDepth(sm.fm.tree) <= WFM_STKMAX
      ensures Shape() && Own() == old(Own()) && GoodInner(old(m.rows), n)
      ensures GoodInner(sm.rows, n) && sm.rows == old(sm.rows)
      ensures ok ==> vals == old(vals)[k := (key, MergeInner(old(m.rows), sm.rows, n))]
      ensures old(feet) <= feet && fresh(feet - old(feet))
    {
      hide Inorder, CountEvents, MapsOk, FunVals, MergeInner, GoodInner, RowVals, Ascending, Separate, LeftDepth;
      hide Shape, Nodes, InnerMap.Valid, Arrays, CmpFileFn, CmpLine, Outside;
      ShapeAt(k, m);
      src.ShapeAt(j, sm);
      assert allocated(Foot()) && allocated(src.Foot());
      ghost var mine, own := Shape(), Own();
      var rows;
      ok, rows := src.RowsAt(j, sm);
      assert mine == Shape() && own == Own();
      if ok {
        src.ShapeAt(j, sm);
        OutsideOf(rows, src.feet, Foot());
        MergeKnownRows(k, key, m, src, rows, sm);
      }
    }

    /** The same once the rows are listed */
    method MergeKnownRows(ghost k: nat, key: FileFn, m: InnerMap, src: CacheProfFile, rows: seq<Row>,
                          ghost sm: InnerMap)
      requires Shape() && k < |Inorder(outer.tree)| && Inorder(outer.tree)[k] == (key, m) && m in feet && m.repr <= feet
      requires src.Shape() && Foot() !! src.Foot() && sm in src.feet && sm.fm in src.feet && RowVals(rows) == sm.rows
      requires Ascending(rows, CmpLine) && Separate(rows, n) && Outside(rows, Foot())
      modifies this`vals, this`feet, m.repr
      ensures src.Shape() && src.Own() == old(src.Own()) && src.feet == old(src.feet)
      ensures sm.rows == old(sm.rows) && sm.fm.tree == old(sm.fm.tree)
      ensures Shape() && Own() == old(Own()) && GoodInner(old(m.rows), n) && GoodInner(sm.rows, n)
      ensures vals == old(vals)[k := (key, MergeInner(old(m.rows), sm.rows, n))]
      ensures old(feet) <= feet && fresh(feet - old(feet))
    {
      hide Inorder, CountEvents, MapsOk, FunVals, MergeInner, GoodInner, RowVals, Ascending, Separate, Shape, Outside;
      assert allocated(src.Foot());
      ghost var theirs, own := src.Shape(), src.Own();
      MergeRows(k, key, m, rows);
      assert theirs == src.Shape() && own == src.Own();
    }

    /** A function of another profile that this one lacks: it gets a copy of the whole map. */
    method MergeNew(key: FileFn, src: CacheProfFile, ghost j: nat, sm: InnerMap)
      requires Shape() && Find(Inorder(outer.tree), key).None?
      requires src.Shape() && src.n == n && Foot() !! src.Foot()
      requires j < |Inorder(src.outer.tree)| && Inorder(src.outer.tree)[j] == (key, sm) && sm in src.feet
      modifies this`vals, this`feet, outer, Nodes(outer.tree)
      ensures src.Shape() && src.Own() == old(src.Own()) && src.feet == old(src.feet)
      ensures sm.rows == old(sm.rows) && sm.fm.tree == old(sm.fm.tree) && summary[..] == old(summary[..])
      ensures Shape() && vals == Put(old(vals), key, sm.rows, CmpFileFn)
      ensures old(feet) <= feet && fresh(feet - old(feet)) && (forall o :: o in Own() && o !in old(Own()) ==> fresh(o))
    {
      hide Inorder, CountEvents, MapsOk, FunVals, Put, Find, Shape, InnerMap.Valid;
      src.ShapeAt(j, sm);
      assert allocated(Foot()) && allocated(src.Foot());
      ghost var mine, own, theirs, foot := Shape(), Own(), src.Shape(), src.Own();
      var c := DopyInnerMap(sm);
      assert mine == Shape() && own == Own();
      assert theirs == src.Shape() && foot == src.Own();
      InsertMap(key, c);
      assert theirs == src.Shape() && foot == src.Own();
    }

    /** The same, told by the key */
    method MergeFound(ghost k: nat, key: FileFn, m: InnerMap, src: CacheProfFile, ghost j: nat, sm: InnerMap)
      returns (ok: bool)
      requires Shape() && k < |Inorder(outer.tree)| && Inorder(outer.tree)[k] == (key, m) && m in feet && m.repr <= feet
      requires src.Shape() && src.n == n && Foot() !! src.Foot() && Ascending(vals, CmpFileFn)
      requires k < |vals| && vals[k].0 == key
      requires j < |Inorder(src.outer.tree)| && Inorder(src.outer.tree)[j] == (key, sm) && sm in src.feet
      modifies this`vals, this`feet, m.repr, sm.fm, sm.fm.nodeStack, sm.fm.numStack
      ensures (ok ==> src.Shape()) && src.Own() == old(src.Own()) && src.feet == old(src.feet)
      ensures sm.rows == old(sm.rows) && sm.fm.tree == old(sm.fm.tree)
      ensures ok <==> LeftDepth(sm.fm.tree) <= WFM_STKMAX
      ensures Shape() && GoodInner(old(m.rows), n) && GoodInner(sm.rows, n)
      ensures ok ==> vals == Put(old(vals), key, MergeInner(old(m.rows), sm.rows, n), CmpFileFn)
      ensures forall o :: o in Foot() && o !in old(Foot()) ==> fresh(o)
    {
      hide Inorder, CountEvents, MapsOk, FunVals, Put, Find, Shape, InnerMap.Valid, MergeInner, GoodInner, LeftDepth;
      ok := MergeKnown(k, key, m, src, j, sm);
      FileFnOrder();
      PutAt(old(vals), k, MergeInner(old(m.rows), sm.rows, n), CmpFileFn);
    }

    /** One function of another profile merged in */
    method MergeFun(key: FileFn, src: CacheProfFile, ghost j: nat, sm: InnerMap) returns (ok: bool)
      requires Shape() && Good(vals, n) && src.Shape() && src.n == n && Foot() !! src.Foot()
      requires j < |Inorder(src.outer.tree)| && Inorder(src.outer.tree)[j] == (key, sm)
      requires sm in src.feet && sm.fm in src.feet
      modifies Foot(), sm.fm, sm.fm.nodeStack, sm.fm.numStack
      ensures (ok ==> src.Shape()) && src.Own() == old(src.Own()) && src.feet == old(src.feet)
      ensures sm.rows == old(sm.rows) && sm.fm.tree == old(sm.fm.tree)
      ensures ok <==> Find(old(vals), key).None? || LeftDepth(sm.fm.tree) <= WFM_STKMAX
      ensures Shape() && summary[..] == old(summary[..]) && GoodInner(sm.rows, n)
      ensures ok ==> vals == Put(old(vals), key, MergedInner(old(vals), key, sm.rows, n), CmpFileFn)
      ensures forall o :: o in Foot() && o !in old(Foot()) ==> fresh(o)
    {
      hide Inorder, CountEvents, MapsOk, FunVals, Put, Find, Shape, InnerMap.Valid, MergeInner, Good, GoodInner;
      hide LeftDepth, Ascending, CmpFileFn, Nodes;
      src.ShapeAt(j, sm);
      GoodAscends(vals, n);
      InnerGood(vals, key, n);
      var found;
      ghost var k;
      assert allocated(src.Foot());
      ghost var theirs, foot := src.Shape(), src.Own();
      found, k := LookupMap(key);
      assert theirs == src.Shape() && foot == src.Own();
      if found.Some? {
        ShapeAt(k, found.value);
        OwnApart();
        ok := MergeFound(k, key, found.value, src, j, sm);
      } else {
        MergeNew(key, src, j, sm);
        ok := true;
      }
    }

    /** Whether the iterators get through: over the other profile's functions, and over the rows of those that this
        profile has too. */
    ghost predicate CanMerge(src: CacheProfFile)
      reads this, src, src.outer, Fms(Inorder(src.outer.tree))
    {
      var s := Inorder(src.outer.tree);
      LeftDepth(src.outer.tree) <= WFM_STKMAX && Through(vals, s, Depths(s), 0)
    }

    /** One round of the outer loop of the merge */
    method MergeNext(src: CacheProfFile, s: seq<Fun>, j: nat) returns (ok: bool)
      requires Shape() && Good(vals, n) && src.Shape() && src.n == n && Foot() !! src.Foot()
      requires s == Inorder(src.outer.tree) && j < |s| == |src.vals| && Good(src.vals[j..], n)
      modifies Foot(), src.feet
      ensures (ok ==> src.Shape()) && src.Own() == old(src.Own())
      ensures src.feet == old(src.feet) && src.vals == old(src.vals)
      ensures Inorder(src.outer.tree) == s && Depths(s) == old(Depths(s)) && src.summary[..] == old(src.summary[..])
      ensures Shape() && summary[..] == old(summary[..]) && Foot() !! src.Foot()
      ensures ok <==> Find(old(vals), s[j].0).None? || Depths(s)[j] <= WFM_STKMAX
      ensures ok ==> Good(vals, n) && Good(src.vals[j + 1..], n)
      ensures ok ==> MergeOuter(vals, src.vals[j + 1..], n) == MergeOuter(old(vals), src.vals[j..], n)
      ensures ok ==> exists x :: vals == Put(old(vals), s[j].0, x, CmpFileFn)
      ensures forall o :: o in Foot() && o !in old(Foot()) ==> fresh(o)
    {
      hide Inorder, CountEvents, MapsOk, FunVals, Put, Find, Shape, Good, GoodInner, LeftDepth, Ascending, CmpFileFn;
      hide Nodes, MergeOuter, InnerMap.Valid;
      src.ShapeAt(j, s[j].1);
      src.OwnApart();
      src.FmsIn();
      assert allocated(src.Foot());
      ghost var r := src.vals[j..];
      MergeHead(vals, r, n);
      assert r[0] == src.vals[j] && r[1..] == src.vals[j + 1..];
      ok := MergeFun(s[j].0, src, j, s[j].1);
    }

    /** The outer loop of the merge */
    method MergeFuns(src: CacheProfFile, s: seq<Fun>) returns (ok: bool)
      requires Shape() && Good(vals, n) && src.Shape() && src.n == n && Foot() !! src.Foot()
      requires s == Inorder(src.outer.tree) && Good(src.vals, n)
      modifies Foot(), src.feet
      ensures (ok ==> src.Shape()) && src.Own() == old(src.Own())
      ensures src.feet == old(src.feet) && src.vals == old(src.vals)
      ensures Shape() && summary[..] == old(summary[..])
      ensures src.summary[..] == old(src.summary[..]) && Foot() !! src.Foot()
      ensures ok <==> Through(old(vals), s, old(Depths(s)), 0)
      ensures ok ==> vals == MergeOuter(old(vals), src.vals, n)
      ensures forall o :: o in Foot() && o !in old(Foot()) ==> fresh(o)
    {
      hide Inorder, CountEvents, MapsOk, FunVals, Put, Find, Shape, Good, GoodInner, LeftDepth, Ascending, CmpFileFn;
      hide Nodes, MergeOuter, Through, Depths;
      ghost var r, was, d := src.vals, vals, Depths(s);
      src.Listed();
      assert r[0..] == r;
      var j := 0;
      while j < |s|
        invariant j <= |s| == |r| && Shape() && src.Shape() && Foot() !! src.Foot()
        invariant src.Own() == old(src.Own()) && src.feet == old(src.feet)
        invariant src.vals == r && s == Inorder(src.outer.tree)
        invariant summary[..] == old(summary[..]) && src.summary[..] == old(src.summary[..]) && Depths(s) == d
        invariant Good(vals, n) && Good(r[j..], n) && MergeOuter(vals, r[j..], n) == MergeOuter(was, r, n)
        invariant Through(vals, s, d, j) == Through(was, s, d, 0)
        invariant forall o :: o in Foot() && o !in old(Foot()) ==> fresh(o)
      {
        ghost var v := vals;
        ok := MergeNext(src, s, j);
        ThroughNext(v, s, d, j);
        if !ok {
          return;
        }
        ghost var x :| vals == Put(v, s[j].0, x, CmpFileFn);
        GoodAscends(v, n);
        ThroughPut(v, s, d, j, x);
        j := j + 1;
      }
      MergeEmpty(vals, r[j..], n);
      ThroughAll(vals, s, d);
      ok := true;
    }

    /** merge_CacheProfInfo: the rows of another profile added to this one's, and the summaries too.  The events lines
        must agree, and the iterators must get through; the other profile keeps its value and its footprint, and
        whatever this profile gains is new. */
    method MergeFrom(src: CacheProfFile) returns (r: Merged)
      requires Valid() && src.Valid() && Foot() !! src.Foot()
      modifies Foot(), src.Foot()
      ensures src.vals == old(src.vals) && src.summary[..] == old(src.summary[..]) && src.Foot() == old(src.Foot())
      ensures r != Overflow ==> src.Valid()
      ensures r == Differ <==> events != src.events
      ensures r == Overflow <==> events == src.events && !old(CanMerge(src))
      ensures r == Differ ==> Valid() && vals == old(vals) && Foot() == old(Foot())
      ensures r == Done ==> Valid() && vals == MergeOuter(old(vals), src.vals, n)
      ensures r == Done ==> summary[..] == AddCounts(old(summary[..]), src.summary[..])
      ensures Foot() !! src.Foot() && forall o :: o in Foot() && o !in old(Foot()) ==> fresh(o)
    {
      hide Inorder, CountEvents, Shape, Good, SumOf, LeftDepth, Nodes, MergeOuter, Through, Depths;
      if events != src.events {
        return Differ;
      }
      SameEvents(src);
      SumMerge(vals, src.vals, n);
      var ok := MergeMaps(src);
      if !ok {
        return Overflow;
      }
      assert allocated(src.Foot());
      ghost var theirs, foot := src.Shape(), src.Foot();
      AddSummary(src.summary[..]);
      assert theirs == src.Shape() && foot == src.Foot();
      return Done;
    }

    /** The merge of the maps alone */
    method MergeMaps(src: CacheProfFile) returns (ok: bool)
      requires Shape() && Good(vals, n) && src.Shape() && src.n == n && Foot() !! src.Foot() && Good(src.vals, n)
      modifies Foot(), src.Foot()
      ensures (ok ==> src.Shape()) && src.Own() == old(src.Own())
      ensures src.feet == old(src.feet) && src.vals == old(src.vals)
      ensures Shape() && summary[..] == old(summary[..])
      ensures src.summary[..] == old(src.summary[..]) && Foot() !! src.Foot()
      ensures ok <==> old(CanMerge(src))
      ensures ok ==> vals == MergeOuter(old(vals), src.vals, n)
      ensures forall o :: o in Foot() && o !in old(Foot()) ==> fresh(o)
    {
      hide Inorder, CountEvents, Shape, Good, LeftDepth, Nodes, MergeOuter, Through, Depths;
      assert allocated(Foot()) && allocated(src.Foot());
      ghost var mine, own, d := Shape(), Own(), Depths(Inorder(src.outer.tree));
      src.FmsIn();
      src.OwnApart();
      var s;
      ok, s := src.Bindings();
      assert mine == Shape() && own == Own();
      if ok {
        assert d == Depths(s);
        ok := MergeFuns(src, s);
      }
    }

    lemma SameEvents(src: CacheProfFile)
      requires Shape() && src.Shape() && events == src.events
      ensures n == src.n && summary.Length == n && src.summary.Length == n
    {
    }

    /** ddel_CacheProfFile: every object of the profile is overwritten, and no promise is made about any of them. */
    method Ddel()
      requires Shape()
      modifies Foot()
    {
      hide Inorder, CountEvents, MapsOk, FunVals, Ascending, Avl;
      FreeFuns(outer.root, n, outer.tree, feet);
      for i := 0 to summary.Length {
        summary[i] := 0;
      }
      outer.root, outer.stackTop := null, 0;
    }

    lemma AvlInside()
      requires Shape()
      ensures Avl(outer.tree)
    {
    }

    lemma Listed()
      requires Shape()
      ensures |vals| == |Inorder(outer.tree)| && Ascending(Inorder(outer.tree), CmpFileFn)
    {
    }

    lemma FmsIn()
      requires Shape()
      ensures forall m :: m in Fms(Inorder(outer.tree)) ==> m in feet
    {
      hide InnerMap.Valid;
      var s := Inorder(outer.tree);
      forall i | 0 <= i < |s|
        ensures s[i].1.fm in feet
      {
        ShapeAt(i, s[i].1);
      }
    }

    lemma OwnApart()
      requires Shape()
      ensures Own() !! feet
    {
    }
  }

  /** avl_free over the outer map with ddel_InnerMap */
  method FreeFuns(nd: AvlNode?<FileFn, InnerMap>, ghost n: nat, ghost t: Tree<FileFn, InnerMap>,
                  ghost feet: set<object>)
    requires Rep(nd, t) && Distinct(t) && MapsOk(Inorder(t), n, feet) && Nodes(t) !! feet
    modifies Nodes(t), feet
    decreases t
  {
    hide MapsOk, Inorder, InnerMap.Valid;
    if nd == null {
      return;
    }
    ghost var l, r := FunsSplit(t, n, feet);
    OwnRepr(nd.val);
    var m, right := nd.val, nd.right;
    assert allocated(feet) && allocated(Nodes(t));
    ghost var keptRight, ok, valid := Rep(right, t.right), MapsOk(Inorder(t.right), n, r), m.Valid();
    FreeFuns(nd.left, n, t.left, l);
    assert keptRight == Rep(right, t.right) && ok == MapsOk(Inorder(t.right), n, r) && valid == m.Valid();
    FreeFuns(nd.right, n, t.right, r);
    assert valid == m.Valid();
    m.Free();
    nd.left, nd.right, nd.balance := null, null, 0;
  }

  ghost function Fms(s: seq<Fun>): set<object> {
    set i | 0 <= i < |s| :: s[i].1.fm
  }

  /** How many stack slots iterating over each of the inner maps takes */
  ghost function Depths(s: seq<Fun>): (d: seq<nat>)
    reads Fms(s)
    ensures |d| == |s|
  {
    seq(|s|, i requires 0 <= i < |s| reads Fms(s) => LeftDepth(s[i].1.fm.tree))
  }

  /** The iterators get through the rows of those functions, from the j-th on, that the profile has too. */
  ghost predicate Through(vals: Outer, s: seq<Fun>, d: seq<nat>, j: nat)
    requires |d| == |s|
  {
    forall i :: j <= i < |s| && Find(vals, s[i].0).Some? ==> d[i] <= WFM_STKMAX
  }

  lemma ThroughNext(vals: Outer, s: seq<Fun>, d: seq<nat>, j: nat)
    requires |d| == |s| && j < |s|
    ensures Through(vals, s, d, j) <==> (Find(vals, s[j].0).None? || d[j] <= WFM_STKMAX) && Through(vals, s, d, j + 1)
  {
  }

  lemma ThroughPut(vals: Outer, s: seq<Fun>, d: seq<nat>, j: nat, x: Inner)
    requires |d| == |s| && j < |s| && Ascending(s, CmpFileFn) && Ascending(vals, CmpFileFn)
    ensures Through(Put(vals, s[j].0, x, CmpFileFn), s, d, j + 1) <==> Through(vals, s, d, j + 1)
  {
    hide Find, Put;
    FileFnOrder();
    forall i | j < i < |s|
      ensures Find(Put(vals, s[j].0, x, CmpFileFn), s[i].0) == Find(vals, s[i].0)
    {
      assert Lawful(CmpFileFn, s[j].0, s[i].0, s[i].0);
      FindPut(vals, s[j].0, x, CmpFileFn, s[i].0);
    }
  }

  lemma ThroughAll(vals: Outer, s: seq<Fun>, d: seq<nat>)
    requires |d| == |s|
    ensures Through(vals, s, d, |s|)
  {
  }

  lemma GoodAscends(vals: Outer, n: nat)
    requires Good(vals, n)
    ensures Ascending(vals, CmpFileFn)
  {
  }

  lemma OutsideOf(rows: seq<Row>, feet: set<object>, foot: set<object>)
    requires Arrays(rows) <= feet && feet !! foot
    ensures Outside(rows, foot)
  {
    forall i | 0 <= i < |rows|
      ensures rows[i].1 !in foot
    {
      assert rows[i].1 in Arrays(rows);
    }
  }

  lemma RowLengths(rows: seq<Row>, n: nat)
    requires Separate(rows, n)
    ensures forall i :: 0 <= i < |rows| ==> rows[i].1.Length == n
  {
  }

  /** None of the vectors belongs to a footprint. */
  ghost predicate Outside(rows: seq<Row>, foot: set<object>) {
    forall i :: 0 <= i < |rows| ==> rows[i].1 !in foot
  }

  /** A row entered at the place of its function, which was found or made */
  lemma EnteredRow(was: Outer, key: FileFn, x: Inner, k: nat)
    requires Ascending(was, CmpFileFn)
    requires var made := if Find(was, key).Some? then was else Put(was, key, [], CmpFileFn);
      k < |made| && made[k].0 == key
    ensures var made := if Find(was, key).Some? then was else Put(was, key, [], CmpFileFn);
      made[k := (key, x)] == Put(was, key, x, CmpFileFn)
  {
    FileFnOrder();
    if Find(was, key).Some? {
      PutAt(was, k, x, CmpFileFn);
    } else {
      PutAscending(was, key, [], CmpFileFn);
      PutAt(Put(was, key, [], CmpFileFn), k, x, CmpFileFn);
      PutPut(was, key, [], x, CmpFileFn);
    }
  }

  lemma {:induction false} PutPut<K(!new), V>(s: seq<(K, V)>, k: K, u: V, v: V, cmp: (K, K) -> int)
    requires TotalOrder(cmp)
    ensures Put(Put(s, k, u, cmp), k, v, cmp) == Put(s, k, v, cmp)
  {
    assert Lawful(cmp, k, k, k);
    if s != [] {
      var z := Put(s, k, u, cmp);
      assert Lawful(cmp, s[0].0, k, k);
      if cmp(s[0].0, k) < 0 {
        PutPut(s[1..], k, u, v, cmp);
        assert z[0] == s[0] && z[1..] == Put(s[1..], k, u, cmp);
      } else if cmp(s[0].0, k) > 0 {
        assert z[0] == (k, u) && z[1..] == s;
      } else {
        assert z[0] == (s[0].0, u) && z[1..] == s[1..];
      }
    }
  }

  lemma TwoNumbers(line: string, ns: seq<nat>)
    requires Split(line, 2) == Ok(ns)
    ensures |ns| >= 2
  {
  }

  lemma SumMerge(a: Outer, b: Outer, n: nat)
    requires Good(a, n) && Good(b, n)
    ensures Good(MergeOuter(a, b, n), n)
    ensures AddCounts(SumOf(a, n), SumOf(b, n)) == SumOf(MergeOuter(a, b, n), n)
  {
    MergeOuterGood(a, b, n);
    var x, y := AddCounts(SumOf(a, n), SumOf(b, n)), SumOf(MergeOuter(a, b, n), n);
    forall e | 0 <= e < n
      ensures x[e] == y[e]
    {
      hide MergeOuter, Good, Total;
      MergeTotal(a, b, n, e);
      SumsAdd(Total(a, n, e), Total(b, n, e));
    }
  }

  lemma SumsAdd(x: nat, y: nat)
    ensures (x % W64 + y % W64) % W64 == (x + y) % W64
  {
    ModAdd(x, y % W64, W64);
    ModAdd(y, x, W64);
  }

  lemma MergeHead(d: Outer, s: Outer, n: nat)
    requires Good(d, n) && Good(s, n) && s != []
    ensures GoodInner(s[0].1, n) && Good(s[1..], n) && GoodInner(InnerAt(d, s[0].0), n)
    ensures Good(Put(d, s[0].0, MergedInner(d, s[0].0, s[0].1, n), CmpFileFn), n)
    ensures MergeOuter(d, s, n) == MergeOuter(Put(d, s[0].0, MergedInner(d, s[0].0, s[0].1, n), CmpFileFn), s[1..], n)
  {
    InnerGood(d, s[0].0, n);
    MergedInnerGood(d, s[0].0, s[0].1, n);
    PutGood(d, s[0].0, MergedInner(d, s[0].0, s[0].1, n), n);
  }

  lemma MergeInnerHead(d: Inner, s: Inner, n: nat)
    requires GoodInner(d, n) && GoodInner(s, n) && s != []
    ensures |s[0].1| == n && Sized(d, n) && GoodInner(AddToInner(d, s[0].0, s[0].1), n) && GoodInner(s[1..], n)
    ensures MergeInner(d, s, n) == MergeInner(AddToInner(d, s[0].0, s[0].1), s[1..], n)
  {
    AddToInnerGood(d, s[0].0, s[0].1);
  }

  lemma MergeInnerEmpty(d: Inner, s: Inner, n: nat)
    requires GoodInner(d, n) && GoodInner(s, n) && s == []
    ensures MergeInner(d, s, n) == d
  {
  }

  lemma MergeEmpty(d: Outer, s: Outer, n: nat)
    requires Good(d, n) && Good(s, n) && s == []
    ensures MergeOuter(d, s, n) == d
  {
  }

  /** Where the line that starts at `pos` ends */
  method LineEnd(text: string, pos: nat) returns (k: nat)
    requires pos <= |text|
    ensures pos <= k <= |text| && FirstLine(text[pos..]) == k - pos
  {
    k := pos;
    while k < |text| && text[k] != '\n'
      invariant pos <= k <= |text| && FirstLine(text[pos..]) == k - pos + FirstLine(text[k..])
    {
      assert text[k..][1..] == text[k + 1..];
      k := k + 1;
    }
  }

  lemma LinesStep(text: string, pos: nat, k: nat)
    requires pos < |text| && pos <= k <= |text| && FirstLine(text[pos..]) == k - pos
    ensures Lines(text[pos..]) == [text[pos..k]] + if k < |text| then Lines(text[k + 1..]) else []
  {
    hide FirstLine;
    var t := text[pos..];
    assert t[..k - pos] == text[pos..k];
    if k < |text| {
      assert t[k - pos + 1..] == text[k + 1..];
      assert Lines(t) == [t[..k - pos]] + Lines(t[k - pos + 1..]);
    }
  }

  /** Splitting the input into lines, as readline does */
  method ReadLines(text: string) returns (lines: seq<string>)
    ensures lines == Lines(text)
  {
    hide FirstLine;
    lines := [];
    var pos := 0;
    assert text[0..] == text;
    while pos < |text|
      invariant pos <= |text| && lines + Lines(text[pos..]) == Lines(text)
    {
      var k := LineEnd(text, pos);
      LinesStep(text, pos, k);
      lines := lines + [text[pos..k]];
      pos := if k < |text| then k + 1 else k;
    }
  }

  /** The main loop over the lines after the events line */
  method ReadBody(lines: seq<string>, f: CacheProfFile) returns (r: Parsed<(string, seq<string>)>)
    requires f.Valid()
    modifies f.Foot()
    ensures f.Valid() && forall o :: o in f.Foot() && o !in old(f.Foot()) ==> fresh(o)
    ensures match Body(lines, "???", "???", old(f.vals), old(f.summary[..]))
      case Err(e) => r == Err(e)
      case Ok(m) => r == Ok((m.summaryLine, m.rest)) && f.vals == m.outer && f.summary[..] == m.summary
  {
    hide SumOf, Good, AddRow, Split, AddCounts, CountEvents, CacheProfFile.Shape, Nodes, Inorder, CacheProfFile.Foot;
    var fl, fn, i := "???", "???", 0;
    ghost var whole := Body(lines, fl, fn, f.vals, f.summary[..]);
    assert lines[0..] == lines;
    while i < |lines|
      invariant i <= |lines| && f.Valid() && forall o :: o in f.Foot() && o !in old(f.Foot()) ==> fresh(o)
      invariant Body(lines[i..], fl, fn, f.vals, f.summary[..]) == whole
    {
      var line := lines[i];
      assert lines[i..][0] == line && lines[i..][1..] == lines[i + 1..];
      if line != [] && IsDigit(line[0]) {
        ghost var vals := f.vals;
        var h, _, _ := f.HandleCounts(fl, fn, line);
        if h.Err? {
          return Err(h.message);
        }
        TwoNumbers(line, Split(line, 2).value);
        SumAddRow(vals, FileFn(fl, fn), Split(line, 2).value[0], Split(line, 2).value[1..]);
      } else if Prefix("fn=", line) {
        fn := line[3..];
      } else if Prefix("fl=", line) {
        fl := line[3..];
      } else if Prefix("summary: ", line) {
        return Ok((line, lines[i + 1..]));
      } else {
        return Err("parse_CacheProfFile: unexpected line in main data");
      }
      i := i + 1;
    }
    assert lines[i..] == [];
    return Err("parse_CacheProfFile: eof before SUMMARY line");
  }

  /** How many desc: lines the file begins with */
  method CountDesc(lines: seq<string>) returns (d: nat)
    ensures d == DescCount(lines)
  {
    d := 0;
    assert lines[0..] == lines;
    while d < |lines| && Prefix("desc: ", lines[d])
      invariant d <= |lines| && DescCount(lines) == d + DescCount(lines[d..])
    {
      assert lines[d..][1..] == lines[d + 1..];
      d := d + 1;
    }
  }

  /** The profile that an object stands for */
  ghost function Abstract(f: CacheProfFile): Profile
    reads f, f.summary
  {
    Profile(f.desc, f.cmd, f.events, f.n, f.vals, f.summary[..])
  }

  /** The comparison of the stated counts with the computed ones */
  method Agree(c: Counts, a: array<nat>) returns (same: bool)
    requires |c| == a.Length
    ensures same <==> c == a[..]
  {
    for i := 0 to a.Length
      invariant c[..i] == a[..i]
    {
      if c[i] != a[i] {
        return false;
      }
    }
    return true;
  }

  /** The summary line against the sums of the rows */
  method CheckSummary(f: CacheProfFile, line: string, rest: seq<string>) returns (r: Parsed<()>)
    requires f.summary.Length == f.n
    ensures !r.NullLine?
    ensures match Finish(f.desc, f.cmd, f.events, f.n, Main(f.vals, f.summary[..], line, rest))
      case Err(e) => r == Err(e)
      case Ok(p) => r == Ok(()) && p == Abstract(f)
  {
    hide Split, Nodes;
    if rest != [] {
      return Err("parse_CacheProfFile: extraneous content after SUMMARY line");
    }
    if |line| < 8 {
      return Err("parse_CacheProfFile: missing SUMMARY line");
    }
    var sp := SplitLine(line[8..], 1);
    if sp.Err? {
      return Err(sp.message);
    }
    if |sp.value| != f.n {
      return Err("parse_CacheProfFile: wrong # counts in SUMMARY line");
    }
    var same := Agree(sp.value, f.summary);
    return if same then Ok(()) else Err("parse_CacheProfFile: computed vs stated SUMMARY counts mismatch");
  }

  /** parse_CacheProfFile */
  method ReadProfile(text: string) returns (r: Parsed<CacheProfFile>)
    ensures match Parse(Lines(text))
      case NullLine => r == NullLine
      case Err(e) => r == Err(e)
      case Ok(p) => r.Ok? && r.value.Valid() && fresh(r.value.Foot()) && Abstract(r.value) == p
  {
    hide SumOf, Good, Body, Split, CountEvents, DescCount, Lines;
    var lines := ReadLines(text);
    var d := CountDesc(lines);
    if d == 0 {
      return Err("parse_CacheProfFile: no DESC lines present");
    }
    if d == |lines| {
      return NullLine;
    }
    if !Prefix("cmd: ", lines[d]) {
      return Err("parse_CacheProfFile: no CMD line present");
    }
    if d + 1 == |lines| {
      return Err("parse_CacheProfFile: eof before EVENTS line");
    }
    if !Prefix("events: ", lines[d + 1]) {
      return Err("parse_CacheProfFile: no EVENTS line present");
    }
    r := ReadFunctions(lines[..d], lines[d], lines[d + 1], lines[d + 2..]);
  }

  /** Everything after the events line */
  method ReadFunctions(desc: seq<string>, cmd: string, events: string, lines: seq<string>)
    returns (r: Parsed<CacheProfFile>)
    ensures match Body(lines, "???", "???", [], Zeroed(CountEvents(events, 6)))
      case Err(e) => r == Err(e)
      case Ok(m) =>
        match Finish(desc, cmd, events, CountEvents(events, 6), m)
        case Err(e) => r == Err(e)
        case Ok(p) => r.Ok? && r.value.Valid() && fresh(r.value.Foot()) && Abstract(r.value) == p
  {
    hide SumOf, Good, Body, Split, CountEvents, CacheProfFile.Shape, Nodes, Finish;
    var f := new CacheProfFile(desc, cmd, events);
    SummaryLength(f);
    var b := ReadBody(lines, f);
    if b.Err? {
      return Err(b.message);
    }
    assert allocated(f.Foot());
    ghost var valid, foot, p := f.Valid(), f.Foot(), Abstract(f);
    var c := CheckSummary(f, b.value.0, b.value.1);
    assert valid == f.Valid() && foot == f.Foot() && p == Abstract(f);
    if c.Err? {
      return Err(c.message);
    }
    return Ok(f);
  }

  lemma SummaryLength(f: CacheProfFile)
    requires f.Valid()
    ensures f.summary.Length == f.n == CountEvents(f.events, 6)
  {
  }
}
