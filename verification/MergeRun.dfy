/** The main loop of cg_merge.c: every file is parsed, merged into the first one and deleted. */
module MergeRun {
  import opened WordFM
  import opened WordFMap
  import opened ProfileMap
  import opened ProfileText
  import opened CountsMap
  import opened ProfileFile

  const Mismatch := "\"events:\" line of most recent file does not match those previously processed"

  /** What every parsed file is: its rows are sorted and complete, and its summary is their sum. */
  ghost predicate Proper(p: Profile) {
    && p.n == CountEvents(p.events, 6) && Good(p.outer, p.n) && p.summary == SumOf(p.outer, p.n)
  }

  lemma {:induction false} BodyGood(lines: seq<string>, fl: string, fn: string, outer: Outer, summary: Counts)
    requires Good(outer, |summary|) && summary == SumOf(outer, |summary|)
    ensures match Body(lines, fl, fn, outer, summary)
      case Err(_) => true
      case Ok(m) => Good(m.outer, |summary|) && m.summary == SumOf(m.outer, |summary|)
    decreases |lines|
  {
    hide SumOf, Good, AddRow, Split;
    if lines != [] {
      var line := lines[0];
      if line != [] && IsDigit(line[0]) {
        if Split(line, 2).Ok? && |Split(line, 2).value| - 1 == |summary| {
          var ns := Split(line, 2).value;
          SumAddRow(outer, FileFn(fl, fn), ns[0], ns[1..]);
          BodyGood(lines[1..], fl, fn, AddRow(outer, FileFn(fl, fn), ns[0], ns[1..]), AddCounts(summary, ns[1..]));
        }
      } else if Prefix("fn=", line) {
        BodyGood(lines[1..], fl, line[3..], outer, summary);
      } else if Prefix("fl=", line) {
        BodyGood(lines[1..], line[3..], fn, outer, summary);
      }
    }
  }

  /** Whatever the parser accepts is proper. */
  lemma ParseProper(lines: seq<string>)
    ensures Parse(lines).Ok? ==> Proper(Parse(lines).value)
  {
    hide SumOf, Good, Split, Body, CountEvents, DescCount;
    if Parse(lines).Ok? {
      var d := DescCount(lines);
      var n := CountEvents(lines[d + 1], 6);
      EmptySum(n);
      BodyGood(lines[d + 2..], "???", "???", [], Zeroed(n));
    }
  }

  /** One profile merged into another with the same events line */
  ghost function Merge(d: Profile, p: Profile): Profile
    requires Proper(d) && Proper(p) && d.events == p.events
  {
    Profile(d.desc, d.cmd, d.events, d.n, MergeOuter(d.outer, p.outer, d.n), AddCounts(d.summary, p.summary))
  }

  lemma MergeProper(d: Profile, p: Profile)
    requires Proper(d) && Proper(p) && d.events == p.events
    ensures Proper(Merge(d, p))
  {
    hide SumOf, Good, MergeOuter, CountEvents;
    SumMerge(d.outer, p.outer, d.n);
  }

  /** The files of a command line merged into a first profile, one after the other */
  ghost function Combine(d: Profile, texts: seq<string>): (r: Parsed<Profile>)
    requires Proper(d)
    ensures r.Ok? ==> Proper(r.value)
    decreases |texts|
  {
    if texts == [] then Ok(d)
    else
      ParseProper(Lines(texts[0]));
      match Parse(Lines(texts[0]))
      case NullLine => NullLine
      case Err(e) => Err(e)
      case Ok(p) =>
        if d.events != p.events then Err(Mismatch)
        else
          MergeProper(d, p);
          Combine(Merge(d, p), texts[1..])
  }

  /** A whole command line */
  ghost function CombineAll(texts: seq<string>): Parsed<Profile>
    requires texts != []
  {
    ParseProper(Lines(texts[0]));
    match Parse(Lines(texts[0]))
    case NullLine => NullLine
    case Err(e) => Err(e)
    case Ok(p) => Combine(p, texts[1..])
  }

  // ---------------------------------------------------------------------------
  // What a command line computes

  ghost predicate Parses(text: string, events: string) {
    Parse(Lines(text)).Ok? && Parse(Lines(text)).value.events == events
  }

  ghost predicate AllParse(texts: seq<string>, events: string) {
    forall i :: 0 <= i < |texts| ==> Parses(texts[i], events)
  }

  ghost function Outers(texts: seq<string>, events: string): (r: seq<Outer>)
    requires AllParse(texts, events)
    ensures |r| == |texts| && forall i :: 0 <= i < |r| ==> Good(r[i], CountEvents(events, 6))
  {
    hide Good, CountEvents, Parse, SumOf;
    var r := seq(|texts|, i requires 0 <= i < |texts| =>
      assert Parses(texts[i], events);
      Parse(Lines(texts[i])).value.outer);
    assert forall i :: 0 <= i < |r| ==> Good(r[i], CountEvents(events, 6)) by {
      forall i | 0 <= i < |r|
        ensures Good(r[i], CountEvents(events, 6))
      {
        assert Parses(texts[i], events);
        ParseProper(Lines(texts[i]));
      }
    }
    r
  }

  lemma {:induction false} CombineMeans(d: Profile, texts: seq<string>)
    requires Proper(d)
    ensures Combine(d, texts).Ok? <==> AllParse(texts, d.events)
    ensures AllParse(texts, d.events) ==>
      var p := Combine(d, texts).value;
      && p.desc == d.desc && p.cmd == d.cmd && p.events == d.events && p.n == d.n
      && p.outer == MergeAll(d.outer, Outers(texts, d.events), d.n)
    decreases |texts|
  {
    hide Good, CountEvents, Parse, SumOf, MergeOuter, Lines;
    if texts != [] {
      ParseProper(Lines(texts[0]));
      var rest := texts[1..];
      AllParseTail(texts, d.events);
      if Parses(texts[0], d.events) {
        var p := Parse(Lines(texts[0])).value;
        MergeProper(d, p);
        CombineMeans(Merge(d, p), rest);
        if AllParse(rest, d.events) {
          OutersTail(texts, d.events);
        }
      }
    }
  }

  lemma AllParseTail(texts: seq<string>, events: string)
    requires texts != []
    ensures AllParse(texts, events) <==> Parses(texts[0], events) && AllParse(texts[1..], events)
  {
    hide Parses;
    if Parses(texts[0], events) && AllParse(texts[1..], events) {
      forall i | 0 <= i < |texts|
        ensures Parses(texts[i], events)
      {
        assert i > 0 ==> texts[i] == texts[1..][i - 1];
      }
    }
  }

  lemma OutersTail(texts: seq<string>, events: string)
    requires texts != [] && AllParse(texts, events) && AllParse(texts[1..], events)
    ensures Outers(texts, events)[1..] == Outers(texts[1..], events)
    ensures Parses(texts[0], events) && Outers(texts, events)[0] == Parse(Lines(texts[0])).value.outer
  {
    hide Parse;
    var o, z := Outers(texts, events), Outers(texts[1..], events);
    assert Parses(texts[0], events);
    forall i | 0 <= i < |z|
      ensures o[1..][i] == z[i]
    {
      assert texts[1..][i] == texts[i + 1];
    }
  }

  /** The merge succeeds exactly if every file parses and all have the events line of the first, and it then gives
      the sum of all files' rows. */
  lemma CombineAllMeans(texts: seq<string>)
    requires texts != []
    ensures CombineAll(texts).Ok? <==> exists events :: AllParse(texts, events)
    ensures forall events :: AllParse(texts, events) ==>
      var p := CombineAll(texts).value;
      && p.events == events && Proper(p)
      && p.outer == MergeAll(Outers(texts, events)[0], Outers(texts, events)[1..], CountEvents(events, 6))
  {
    hide Good, CountEvents, Parse, SumOf, MergeOuter, Lines, Combine, AllParse;
    ParseProper(Lines(texts[0]));
    if Parse(Lines(texts[0])).Ok? {
      var p := Parse(Lines(texts[0])).value;
      CombineMeans(p, texts[1..]);
      AllParseTail(texts, p.events);
    }
    forall events | AllParse(texts, events)
      ensures CombineAll(texts).Ok? &&
        var p := CombineAll(texts).value;
        && p.events == events && Proper(p)
        && p.outer == MergeAll(Outers(texts, events)[0], Outers(texts, events)[1..], CountEvents(events, 6))
    {
      AllParseTail(texts, events);
      OutersTail(texts, events);
    }
  }

  /** The order of the files on the command line decides the description and command lines only. */
  lemma AnyOrder(xs: seq<string>, ys: seq<string>)
    requires xs != [] && multiset(xs) == multiset(ys)
    ensures ys != [] && (CombineAll(xs).Ok? <==> CombineAll(ys).Ok?)
    ensures CombineAll(xs).Ok? ==>
      var p, q := CombineAll(xs).value, CombineAll(ys).value;
      p.events == q.events && p.n == q.n && p.outer == q.outer && p.summary == q.summary
  {
    hide Good, CountEvents, Parse, SumOf, MergeOuter, Lines, CombineAll, AllParse, Outers;
    assert |multiset(xs)| == |xs| && |multiset(ys)| == |ys|;
    CombineAllMeans(xs);
    CombineAllMeans(ys);
    forall events
      ensures AllParse(xs, events) <==> AllParse(ys, events)
    {
      if AllParse(xs, events) {
        AllParseAny(xs, ys, events);
      }
      if AllParse(ys, events) {
        AllParseAny(ys, xs, events);
      }
    }
    if CombineAll(xs).Ok? {
      var events :| AllParse(xs, events);
      OutersAny(xs, ys, events);
      MergeAnyOrder(Outers(xs, events), Outers(ys, events), CountEvents(events, 6));
    }
  }

  lemma AllParseAny(xs: seq<string>, ys: seq<string>, events: string)
    requires multiset(xs) == multiset(ys) && AllParse(xs, events)
    ensures AllParse(ys, events)
  {
    hide Parses;
    forall i | 0 <= i < |ys|
      ensures Parses(ys[i], events)
    {
      assert ys[i] in multiset(xs);
    }
  }

  function OuterOf(text: string): Outer {
    if Parse(Lines(text)).Ok? then Parse(Lines(text)).value.outer else []
  }

  lemma OutersAny(xs: seq<string>, ys: seq<string>, events: string)
    requires multiset(xs) == multiset(ys) && AllParse(xs, events) && AllParse(ys, events)
    ensures multiset(Outers(xs, events)) == multiset(Outers(ys, events))
  {
    hide Parse, Lines;
    assert forall i :: 0 <= i < |xs| ==> Parses(xs[i], events);
    assert forall i :: 0 <= i < |ys| ==> Parses(ys[i], events);
    ImagesAny(xs, ys, Outers(xs, events), Outers(ys, events), OuterOf);
  }

  lemma {:induction false} ImagesAny<S, T>(xs: seq<S>, ys: seq<S>, us: seq<T>, vs: seq<T>, f: S -> T)
    requires multiset(xs) == multiset(ys) && |us| == |xs| && |vs| == |ys|
    requires (forall i :: 0 <= i < |xs| ==> us[i] == f(xs[i])) && forall i :: 0 <= i < |ys| ==> vs[i] == f(ys[i])
    ensures multiset(us) == multiset(vs)
    decreases |xs|
  {
    assert |multiset(xs)| == |xs| && |multiset(ys)| == |ys|;
    if xs != [] {
      var k := TakeOut(xs, ys);
      assert us == [us[0]] + us[1..] && vs == vs[..k] + [vs[k]] + vs[k + 1..];
      ImagesAny(xs[1..], ys[..k] + ys[k + 1..], us[1..], vs[..k] + vs[k + 1..], f);
    }
  }

  // ---------------------------------------------------------------------------
  // The run on the heap

  /** How a run ends: a profile to write, no file at all, an error message, the use of a line that is not there,
      or the assertion of the iterator */
  datatype Outcome = Written(f: CacheProfFile) | Nothing | Failed(message: string) | Crashed | Stuck

  /** Few enough functions, and lines in each of them, for every iteration to get through */
  ghost predicate Small(outer: Outer) {
    |outer| < MAX_ITERABLE && forall i :: 0 <= i < |outer| ==> |outer[i].1| < MAX_ITERABLE
  }

  lemma SmallMerges(dst: CacheProfFile, src: CacheProfFile)
    requires src.Valid() && Small(src.vals)
    ensures dst.CanMerge(src)
  {
    hide Inorder, Avl, LeftDepth, Good, SumOf, CountEvents, InnerMap.Valid;
    src.Listed();
    src.AvlInside();
    SlotsSuffice(src.outer.tree);
    var s := Inorder(src.outer.tree);
    forall i | 0 <= i < |s|
      ensures Depths(s)[i] <= WFM_STKMAX
    {
      src.ShapeAt(i, s[i].1);
      s[i].1.AvlInside();
      SlotsSuffice(s[i].1.fm.tree);
    }
  }

  /** One file of the main loop: merged into the first, and deleted.  The result does not depend on the deleted
      profile: it is what the merge left, whatever happens to the objects of the source. */
  method MergeAndDelete(dst: CacheProfFile, src: CacheProfFile) returns (r: Merged)
    requires dst.Valid() && src.Valid() && dst.Foot() !! src.Foot()
    modifies dst.Foot(), src.Foot()
    ensures r == Differ <==> dst.events != src.events
    ensures r == Overflow ==> !old(Small(src.vals))
    ensures r == Done ==> dst.Valid() && Proper(old(Abstract(dst))) && Proper(old(Abstract(src)))
    ensures r == Done ==> Abstract(dst) == Merge(old(Abstract(dst)), old(Abstract(src)))
    ensures forall o :: o in dst.Foot() && o !in old(dst.Foot()) ==> fresh(o)
  {
    hide Good, SumOf, CountEvents, MergeOuter, Small, CacheProfFile.Shape, CacheProfFile.CanMerge;
    ProperFile(dst);
    ProperFile(src);
    if Small(src.vals) {
      SmallMerges(dst, src);
    }
    r := dst.MergeFrom(src);
    if r == Done {
      assert allocated(dst.Foot());
      ghost var valid, foot, p := dst.Valid(), dst.Foot(), Abstract(dst);
      src.Ddel();
      assert valid == dst.Valid() && foot == dst.Foot() && p == Abstract(dst);
    }
  }

  lemma ProperFile(f: CacheProfFile)
    requires f.Valid()
    ensures Proper(Abstract(f))
  {
  }

  ghost predicate AllSmall(texts: seq<string>) {
    forall i :: 0 <= i < |texts| ==> Small(OuterOf(texts[i]))
  }

  /** The files after the first */
  method MergeFiles(f: CacheProfFile, texts: seq<string>) returns (r: Outcome)
    requires f.Valid()
    modifies f.Foot()
    ensures !r.Nothing? && (r.Stuck? ==> !AllSmall(texts)) && Proper(old(Abstract(f)))
    ensures !r.Stuck? ==>
      match Combine(old(Abstract(f)), texts)
      case NullLine => r == Crashed
      case Err(e) => r == Failed(e)
      case Ok(p) => r == Written(f) && f.Valid() && Abstract(f) == p
  {
    hide Good, SumOf, CountEvents, MergeOuter, Small, Parse, Lines, CacheProfFile.Shape, Merge, Proper;
    hide CacheProfFile.Foot;
    ProperFile(f);
    ghost var start := Abstract(f);
    assert texts[0..] == texts;
    for i := 0 to |texts|
      invariant f.Valid() && Proper(Abstract(f)) && Combine(Abstract(f), texts[i..]) == Combine(start, texts)
      invariant forall o :: o in f.Foot() && o !in old(f.Foot()) ==> fresh(o)
    {
      assert texts[i..][0] == texts[i] && texts[i..][1..] == texts[i + 1..];
      assert allocated(f.Foot());
      ghost var valid, foot, p := f.Valid(), f.Foot(), Abstract(f);
      var src := ReadProfile(texts[i]);
      assert valid == f.Valid() && foot == f.Foot() && p == Abstract(f);
      if src.NullLine? {
        return Crashed;
      }
      if src.Err? {
        return Failed(src.message);
      }
      ProperFile(src.value);
      var m := MergeAndDelete(f, src.value);
      if m == Differ {
        return Failed(Mismatch);
      }
      if m == Overflow {
        return Stuck;
      }
      ProperFile(f);
    }
    return Written(f);
  }

  /** main: the files of a command line */
  method Run(texts: seq<string>) returns (r: Outcome)
    ensures r.Nothing? <==> texts == []
    ensures r.Stuck? ==> !AllSmall(texts)
    ensures texts != [] && !r.Stuck? ==>
      match CombineAll(texts)
      case NullLine => r == Crashed
      case Err(e) => r == Failed(e)
      case Ok(p) => r.Written? && r.f.Valid() && Abstract(r.f) == p
  {
    hide Good, SumOf, CountEvents, Small, Parse, Lines, CacheProfFile.Shape, Proper, Combine, CacheProfFile.Foot;
    if texts == [] {
      return Nothing;
    }
    var first := ReadProfile(texts[0]);
    if first.NullLine? {
      return Crashed;
    }
    if first.Err? {
      return Failed(first.message);
    }
    r := MergeFiles(first.value, texts[1..]);
    assert forall i :: 0 <= i < |texts[1..]| ==> texts[1..][i] == texts[i + 1];
  }
}
