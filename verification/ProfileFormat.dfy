/** The profile files cg_merge.c accepts, told from their text: how many events the events line names, and what
    follows from the rows. */
module ProfileFormat {
  import opened MachineWords
  import opened Wrappers
  import opened Decimal
  import opened ProfileMap
  import opened ProfileText

  // ---------------------------------------------------------------------------
  // The events line

  predicate Letter(c: char) {
    'A' <= c <= 'Z' || 'a' <= c <= 'z'
  }

  /** Each name after a blank */
  function Spaced(names: seq<string>): string {
    if names == [] then [] else " " + names[0] + Spaced(names[1..])
  }

  function EventsLine(names: seq<string>): string {
    "events:" + Spaced(names)
  }

  /** How many names begin with a letter */
  function Lettered(names: seq<string>): nat {
    if names == [] then 0
    else (if names[0] != [] && Letter(names[0][0]) then 1 else 0) + Lettered(names[1..])
  }

  predicate BlankFree(names: seq<string>) {
    forall i :: 0 <= i < |names| ==> ' ' !in names[i]
  }

  lemma {:induction false} CountSkip(s: string, from: nat, k: nat)
    requires from + k <= |s| && forall i :: from <= i < from + k ==> s[i] != ' '
    ensures CountEvents(s, from) == CountEvents(s, from + k)
    decreases k
  {
    if k > 0 {
      CountSkip(s, from + 1, k - 1);
    }
  }

  lemma LetterIs(c: char)
    ensures (IsAlpha(c) <==> Letter(c)) && !Letter(' ')
  {
  }

  lemma {:induction false} CountFrom(s: string, from: nat, names: seq<string>)
    requires from <= |s| && s[from..] == Spaced(names) && BlankFree(names)
    ensures CountEvents(s, from) == Lettered(names)
    decreases |names|
  {
    hide Letter, IsAlpha;
    if names != [] {
      var name, rest := names[0], Spaced(names[1..]);
      var next := from + 1 + |name|;
      assert s[from..] == [' '] + name + rest;
      assert s[from] == s[from..][0] == ' ';
      forall i | from + 1 <= i < next
        ensures s[i] == name[i - from - 1]
      {
        assert s[i] == s[from..][i - from];
      }
      assert s[next..] == rest by {
        assert s[next..] == s[from..][1 + |name|..];
      }
      CountSkip(s, from + 1, |name|);
      CountFrom(s, next, names[1..]);
      if name != [] {
        LetterIs(name[0]);
        assert s[from + 1] == name[0];
      } else if names[1..] != [] {
        assert s[from + 1] == rest[0] == ' ';
        LetterIs(' ');
      }
    }
  }

  /** The number of events is the number of names on the line that begin with a letter. */
  lemma EventsCounted(names: seq<string>)
    requires BlankFree(names)
    ensures CountEvents(EventsLine(names), 6) == Lettered(names)
  {
    var s := EventsLine(names);
    assert s[6] == ':' && s[7..] == Spaced(names);
    CountSkip(s, 6, 1);
    CountFrom(s, 7, names);
  }

  // ---------------------------------------------------------------------------
  // Rows

  /** A line of the main data: the name of a file, the name of a function, or a line number and counts, each count
      after some white space */
  datatype Item = FileName(name: string) | FunctionName(name: string) | Numbers(line: nat, counts: seq<(string, nat)>)

  predicate White(c: char) {
    c == ' ' || c == '\t' || c == '\r' || c as int == 11 || c as int == 12
  }

  predicate Gap(s: string) {
    s != [] && forall i :: 0 <= i < |s| ==> White(s[i])
  }

  predicate Written(counts: seq<(string, nat)>) {
    forall i :: 0 <= i < |counts| ==> Gap(counts[i].0) && counts[i].1 < W64
  }

  predicate Legible(items: seq<Item>) {
    forall i :: 0 <= i < |items| && items[i].Numbers? ==> items[i].line < W64 && Written(items[i].counts)
  }

  function CountsText(counts: seq<(string, nat)>): string {
    if counts == [] then [] else counts[0].0 + Digits(counts[0].1) + CountsText(counts[1..])
  }

  function Text(item: Item): string {
    match item
    case FileName(name) => "fl=" + name
    case FunctionName(name) => "fn=" + name
    case Numbers(line, counts) => Digits(line) + CountsText(counts)
  }

  function Texts(items: seq<Item>): seq<string> {
    if items == [] then [] else [Text(items[0])] + Texts(items[1..])
  }

  function Values(counts: seq<(string, nat)>): (c: Counts)
    ensures |c| == |counts|
  {
    if counts == [] then [] else [counts[0].1] + Values(counts[1..])
  }

  lemma {:induction false} ValuesAt(counts: seq<(string, nat)>, e: nat)
    requires e < |counts|
    ensures Values(counts)[e] == counts[e].1
  {
    if e > 0 {
      ValuesAt(counts[1..], e - 1);
    }
  }

  /** Every row has n counts. */
  predicate Rectangular(items: seq<Item>, n: nat) {
    forall i :: 0 <= i < |items| && items[i].Numbers? ==> |items[i].counts| == n
  }

  /** What the rows count for event e in all */
  function Column(items: seq<Item>, n: nat, e: nat): nat
    requires Rectangular(items, n) && e < n
  {
    if items == [] then 0
    else
      (if items[0].Numbers? then items[0].counts[e].1 else 0) + Column(items[1..], n, e)
  }

  /** What they count for one line of one function; names hold until the next of their kind. */
  function Cell(items: seq<Item>, n: nat, fl: string, fn: string, key: FileFn, line: nat, e: nat): nat
    requires Rectangular(items, n) && e < n
    decreases |items|
  {
    if items == [] then 0
    else match items[0]
      case FileName(name) => Cell(items[1..], n, name, fn, key, line, e)
      case FunctionName(name) => Cell(items[1..], n, fl, name, key, line, e)
      case Numbers(l, counts) =>
        (if key == FileFn(fl, fn) && line == l then counts[e].1 else 0) + Cell(items[1..], n, fl, fn, key, line, e)
  }

  predicate Mentioned(items: seq<Item>, fl: string, fn: string, key: FileFn, line: nat)
    decreases |items|
  {
    items != [] &&
      match items[0]
      case FileName(name) => Mentioned(items[1..], name, fn, key, line)
      case FunctionName(name) => Mentioned(items[1..], fl, name, key, line)
      case Numbers(l, _) => (key == FileFn(fl, fn) && line == l) || Mentioned(items[1..], fl, fn, key, line)
  }

  // ---------------------------------------------------------------------------
  // Reading them

  lemma DigitsStart(n: nat)
    ensures '0' <= Digits(n)[0] <= '9'
  {
    DigitsNumber(n);
  }

  lemma {:induction false} CountsRead(counts: seq<(string, nat)>)
    requires Written(counts)
    ensures ParseAll(CountsText(counts)) == (Values(counts), [])
    ensures CountsText(counts) == [] || !IsDigit(CountsText(counts)[0])
    decreases |counts|
  {
    if counts != [] {
      var gap, n, more := counts[0].0, counts[0].1, CountsText(counts[1..]);
      CountsRead(counts[1..]);
      assert CountsText(counts) == gap + Digits(n) + more;
      assert (gap + Digits(n) + more)[0] == gap[0];
      NumberScan(gap, n, more);
      hide ParseAll, ParseULong, Digits;
      ScanOn(gap + Digits(n) + more, n, more);
    }
  }

  lemma RowText(line: nat, counts: seq<(string, nat)>)
    requires line < W64 && Written(counts)
    ensures var s := Digits(line) + CountsText(counts);
      && s != [] && IsDigit(s[0])
      && Split(s, 2) == if counts == [] then Err("too few counts in count line") else Ok([line] + Values(counts))
  {
    var more := CountsText(counts);
    CountsRead(counts);
    DigitsStart(line);
    assert "" + Digits(line) + more == Digits(line) + more;
    NumberScan("", line, more);
    hide ParseULong, Digits, CountsText;
    ScanOn(Digits(line) + more, line, more);
  }

  /** The map after the items */
  ghost function Entered(items: seq<Item>, n: nat, fl: string, fn: string, outer: Outer): (r: Outer)
    requires Rectangular(items, n) && Good(outer, n)
    ensures Good(r, n)
    decreases |items|
  {
    if items == [] then outer
    else match items[0]
      case FileName(name) => Entered(items[1..], n, name, fn, outer)
      case FunctionName(name) => Entered(items[1..], n, fl, name, outer)
      case Numbers(line, counts) =>
        AddRowGood(outer, FileFn(fl, fn), line, Values(counts));
        Entered(items[1..], n, fl, fn, AddRow(outer, FileFn(fl, fn), line, Values(counts)))
  }

  /** One line of the main data read */
  lemma ItemRead(item: Item, rest: seq<string>, fl: string, fn: string, outer: Outer, n: nat)
    requires Good(outer, n) && n > 0 && Legible([item])
    ensures var r := Body([Text(item)] + rest, fl, fn, outer, SumOf(outer, n));
      if item.FileName? then r == Body(rest, item.name, fn, outer, SumOf(outer, n))
      else if item.FunctionName? then r == Body(rest, fl, item.name, outer, SumOf(outer, n))
      else if |item.counts| != n then r.Err?
      else
        var next := AddRow(outer, FileFn(fl, fn), item.line, Values(item.counts));
        Good(next, n) && r == Body(rest, fl, fn, next, SumOf(next, n))
  {
    hide AddRow, SumOf, Split, AddCounts, Good, Digits, CountsText, Values;
    assert [item][0] == item;
    match item
    case FileName(name) => ProfileText.FileName(name, rest, fl, fn, outer, SumOf(outer, n));
    case FunctionName(name) => ProfileText.FunctionName(name, rest, fl, fn, outer, SumOf(outer, n));
    case Numbers(line, counts) =>
      RowText(line, counts);
      var s := Digits(line) + CountsText(counts);
      assert ([s] + rest)[0] == s && ([s] + rest)[1..] == rest;
      if counts != [] {
        assert ([line] + Values(counts))[1..] == Values(counts);
        if |counts| == n {
          SumAddRow(outer, FileFn(fl, fn), line, Values(counts));
        }
      }
  }

  lemma {:induction false} ItemsRead(items: seq<Item>, last: string, fl: string, fn: string, outer: Outer, n: nat)
    requires Good(outer, n) && n > 0 && Legible(items) && Prefix("summary:", last)
    ensures var r := Body(Texts(items) + [last], fl, fn, outer, SumOf(outer, n));
      if Rectangular(items, n) && Prefix("summary: ", last) then
        var end := Entered(items, n, fl, fn, outer);
        r == Ok(Main(end, SumOf(end, n), last, []))
      else r.Err?
    decreases |items|
  {
    hide SumOf, Good, Body, AddRow, Text;
    if items == [] {
      LastRead(last, fl, fn, outer, SumOf(outer, n));
      assert Texts(items) + [last] == [last];
    } else {
      var item, more, rest := items[0], items[1..], Texts(items[1..]) + [last];
      assert Texts(items) + [last] == [Text(item)] + rest;
      assert Legible([item]) && Legible(more);
      ItemRead(item, rest, fl, fn, outer, n);
      Halved(items, n);
      match item
      case FileName(name) => ItemsRead(more, last, name, fn, outer, n);
      case FunctionName(name) => ItemsRead(more, last, fl, name, outer, n);
      case Numbers(line, counts) =>
        if |counts| == n {
          ItemsRead(more, last, fl, fn, AddRow(outer, FileFn(fl, fn), line, Values(counts)), n);
        }
    }
  }

  lemma Halved(items: seq<Item>, n: nat)
    requires items != []
    ensures Rectangular(items, n) <==> (items[0].Numbers? ==> |items[0].counts| == n) && Rectangular(items[1..], n)
  {
  }

  lemma LastRead(last: string, fl: string, fn: string, outer: Outer, sum: Counts)
    requires Good(outer, |sum|) && Prefix("summary:", last)
    ensures var r := Body([last], fl, fn, outer, sum);
      if Prefix("summary: ", last) then r == Ok(Main(outer, sum, last, [])) else r.Err?
  {
    assert last[0] == 's' && [last][1..] == [];
  }

  // ---------------------------------------------------------------------------
  // What they add up to

  lemma {:induction false} ColumnIs(items: seq<Item>, n: nat, fl: string, fn: string, outer: Outer, e: nat)
    requires Rectangular(items, n) && Good(outer, n) && e < n
    ensures SumOf(Entered(items, n, fl, fn, outer), n)[e] == (SumOf(outer, n)[e] + Column(items, n, e)) % W64
    decreases |items|
  {
    hide Good, AddRow, SumOf, Values, AddCounts;
    if items == [] {
      SumWords(outer, n);
    } else {
      match items[0]
      case FileName(name) => ColumnIs(items[1..], n, name, fn, outer, e);
      case FunctionName(name) => ColumnIs(items[1..], n, fl, name, outer, e);
      case Numbers(line, counts) =>
        var c := Values(counts);
        SumAddRow(outer, FileFn(fl, fn), line, c);
        ColumnIs(items[1..], n, fl, fn, AddRow(outer, FileFn(fl, fn), line, c), e);
        ValuesAt(counts, e);
        AddedAt(SumOf(outer, n), c, e, Column(items[1..], n, e));
    }
  }

  lemma AddedAt(a: Counts, c: Counts, e: nat, more: nat)
    requires |a| == |c| && e < |c|
    ensures (AddCounts(a, c)[e] + more) % W64 == (a[e] + (c[e] + more)) % W64
  {
    ModAdd(a[e] + c[e], more, W64);
  }

  /** A count of a row, 0 if there is none */
  function At(row: Option<Counts>, n: nat, e: nat): nat
    requires e < n
  {
    if row.Some? && |row.value| == n then row.value[e] else 0
  }

  ghost predicate BelowWord(outer: Outer, key: FileFn, line: nat, n: nat, e: nat)
    requires e < n
  {
    At(Row(outer, key, line), n, e) < W64
  }

  lemma {:induction false} CellIs(items: seq<Item>, n: nat, fl: string, fn: string, outer: Outer, key: FileFn,
                                  line: nat, e: nat)
    requires Rectangular(items, n) && Legible(items) && Good(outer, n) && e < n && BelowWord(outer, key, line, n, e)
    ensures var row := Row(Entered(items, n, fl, fn, outer), key, line);
      && (row.Some? <==> Row(outer, key, line).Some? || Mentioned(items, fl, fn, key, line))
      && (row.Some? ==> |row.value| == n)
      && At(row, n, e) == (At(Row(outer, key, line), n, e) + Cell(items, n, fl, fn, key, line, e)) % W64
    decreases |items|
  {
    hide Good, AddRow, Row, Text;
    RowSize(outer, key, line, n);
    if items != [] {
      var more := items[1..];
      assert Legible(more) && items[0] in items;
      match items[0]
      case FileName(name) => CellIs(more, n, name, fn, outer, key, line, e);
      case FunctionName(name) => CellIs(more, n, fl, name, outer, key, line, e);
      case Numbers(l, counts) =>
        var c := Values(counts);
        var next := AddRow(outer, FileFn(fl, fn), l, c);
        AddRowGood(outer, FileFn(fl, fn), l, c);
        AddRowMeans(outer, FileFn(fl, fn), l, c, key, line);
        ValuesAt(counts, e);
        CellIs(more, n, fl, fn, next, key, line, e);
        ModAdd(At(Row(outer, key, line), n, e) + c[e], Cell(more, n, fl, fn, key, line, e), W64);
    }
  }

  // ---------------------------------------------------------------------------
  // Whole files

  function SummaryText(stated: Counts): string {
    if stated == [] then [] else " " + Digits(stated[0]) + SummaryText(stated[1..])
  }

  function FileLines(desc: seq<string>, cmd: string, names: seq<string>, items: seq<Item>,
                     stated: Counts): seq<string> {
    desc + [cmd, EventsLine(names)] + Texts(items) + ["summary:" + SummaryText(stated)]
  }

  /** A file with these lines */
  ghost predicate Plausible(desc: seq<string>, cmd: string, names: seq<string>, items: seq<Item>, stated: Counts) {
    && desc != [] && (forall i :: 0 <= i < |desc| ==> "desc: " <= desc[i]) && "cmd: " <= cmd
    && BlankFree(names) && names != [] && (forall i :: 0 <= i < |names| ==> names[i] != [] && Letter(names[i][0]))
    && Legible(items) && forall i :: 0 <= i < |stated| ==> stated[i] < W64
  }

  /** Every row has a number for every event, and the stated summary is the sum of the rows. */
  ghost predicate AddsUp(names: seq<string>, items: seq<Item>, stated: Counts) {
    && Rectangular(items, |names|) && |stated| == |names|
    && forall e :: 0 <= e < |names| ==> stated[e] == Column(items, |names|, e) % W64
  }

  lemma {:induction false} AllLettered(names: seq<string>)
    requires forall i :: 0 <= i < |names| ==> names[i] != [] && Letter(names[i][0])
    ensures Lettered(names) == |names|
  {
    if names != [] {
      assert forall i :: 0 <= i < |names[1..]| ==> names[1..][i] == names[i + 1];
      AllLettered(names[1..]);
    }
  }

  lemma {:induction false} SummaryRead(stated: Counts)
    requires forall i :: 0 <= i < |stated| ==> stated[i] < W64
    ensures ParseAll(SummaryText(stated)) == (stated, [])
    ensures SummaryText(stated) == [] || SummaryText(stated)[0] == ' '
  {
    if stated != [] {
      var more := SummaryText(stated[1..]);
      SummaryRead(stated[1..]);
      assert SummaryText(stated) == " " + Digits(stated[0]) + more;
      NumberScan(" ", stated[0], more);
      hide ParseAll, ParseULong, Digits;
      ScanOn(" " + Digits(stated[0]) + more, stated[0], more);
      assert stated == [stated[0]] + stated[1..];
    }
  }

  /** Reading a file comes down to its main data and its summary. */
  lemma FileMain(desc: seq<string>, cmd: string, names: seq<string>, items: seq<Item>, stated: Counts)
    requires Plausible(desc, cmd, names, items, stated)
    ensures CountEvents(EventsLine(names), 6) == |names| && Good([], |names|)
    ensures Parse(FileLines(desc, cmd, names, items, stated)) ==
      match Body(Texts(items) + ["summary:" + SummaryText(stated)], "???", "???", [], SumOf([], |names|))
      case Err(e) => Err(e)
      case Ok(m) => Finish(desc, cmd, EventsLine(names), |names|, m)
  {
    hide Texts, SumOf, Good, SummaryText, Body, Finish, CountEvents, EventsLine, Letter, Legible, Parse;
    var main := Texts(items) + ["summary:" + SummaryText(stated)];
    EventsCounted(names);
    AllLettered(names);
    EmptySum(|names|);
    EventsPrefix(names);
    assert FileLines(desc, cmd, names, items, stated) == desc + [cmd, EventsLine(names)] + main;
    Headed(desc, cmd, EventsLine(names), main);
  }

  lemma Headed(desc: seq<string>, cmd: string, events: string, main: seq<string>)
    requires desc != [] && (forall i :: 0 <= i < |desc| ==> "desc: " <= desc[i]) && "cmd: " <= cmd
    requires Prefix("events: ", events) && Good([], CountEvents(events, 6))
    ensures var n := CountEvents(events, 6);
      Parse(desc + [cmd, events] + main) ==
        match Body(main, "???", "???", [], SumOf([], n))
        case Err(e) => Err(e)
        case Ok(m) => Finish(desc, cmd, events, n, m)
  {
    hide SumOf, Good, Body, Finish, CountEvents;
    var lines, d := desc + [cmd, events] + main, |desc|;
    assert lines == desc + ([cmd, events] + main);
    assert cmd[0] == 'c';
    DescCounted(desc, [cmd, events] + main);
    assert lines[d] == cmd && lines[d + 1] == events && lines[d + 2..] == main && lines[..d] == desc;
    EmptySum(CountEvents(events, 6));
  }

  lemma EventsPrefix(names: seq<string>)
    requires names != []
    ensures Prefix("events: ", EventsLine(names))
  {
    assert EventsLine(names) == "events: " + (names[0] + Spaced(names[1..]));
  }

  lemma SummaryPrefix(stated: Counts)
    ensures ("summary:" + SummaryText(stated))[8..] == SummaryText(stated)
    ensures Prefix("summary:", "summary:" + SummaryText(stated))
    ensures Prefix("summary: ", "summary:" + SummaryText(stated)) <==> stated != []
  {
    var text := SummaryText(stated);
    hide Digits;
    if stated != [] {
      var more := Digits(stated[0]) + SummaryText(stated[1..]);
      assert text == " " + more;
      hide SummaryText;
      SpaceAfter(more);
    }
    hide SummaryText;
    AfterColon(text);
    assert |"summary:" + text| == 8 + |text|;
  }

  /** Such a file is accepted exactly if it adds up.  It then stands for the rows it has: each count of each line of
      each function is the sum of the numbers given for it, as a 64-bit number. */
  lemma AcceptedExactly(desc: seq<string>, cmd: string, names: seq<string>, items: seq<Item>, stated: Counts)
    requires Plausible(desc, cmd, names, items, stated)
    ensures var r := Parse(FileLines(desc, cmd, names, items, stated));
      && (r.Ok? <==> AddsUp(names, items, stated)) && !r.NullLine?
      && (r.Ok? ==> Stands(r.value, desc, cmd, names, items, stated))
  {
    var n, last := |names|, "summary:" + SummaryText(stated);
    hide SumOf, Good, Body, Parse, Texts, Entered, Stands, Plausible, EventsLine;
    FileMain(desc, cmd, names, items, stated);
    PlausibleParts(desc, cmd, names, items, stated);
    SummaryPrefix(stated);
    ItemsRead(items, last, "???", "???", [], n);
    if Rectangular(items, n) && stated != [] {
      var end := Entered(items, n, "???", "???", []);
      SummaryRead(stated);
      hide ParseAll;
      SumsAre(names, items, stated);
      if stated == SumOf(end, n) {
        StandsFor(desc, cmd, names, items, stated);
      }
    }
  }

  lemma PlausibleParts(desc: seq<string>, cmd: string, names: seq<string>, items: seq<Item>, stated: Counts)
    requires Plausible(desc, cmd, names, items, stated)
    ensures Legible(items) && names != [] && forall i :: 0 <= i < |stated| ==> stated[i] < W64
  {
  }

  lemma SumsAre(names: seq<string>, items: seq<Item>, stated: Counts)
    requires Rectangular(items, |names|) && Good([], |names|)
    ensures stated == SumOf(Entered(items, |names|, "???", "???", []), |names|) <==> AddsUp(names, items, stated)
  {
    var n := |names|;
    EmptySum(n);
    hide SumOf, Good, Entered, Column;
    forall e | 0 <= e < n
      ensures SumOf(Entered(items, n, "???", "???", []), n)[e] == Column(items, n, e) % W64
    {
      ColumnIs(items, n, "???", "???", [], e);
    }
  }

  /** The profile a file stands for */
  ghost predicate Stands(p: Profile, desc: seq<string>, cmd: string, names: seq<string>, items: seq<Item>,
                         stated: Counts)
    requires Rectangular(items, |names|)
  {
    && p.desc == desc && p.cmd == cmd && p.events == EventsLine(names) && p.n == |names| && p.summary == stated
    && forall key: FileFn, line: nat :: Given(p, key, line, items)
  }

  ghost predicate Given(p: Profile, key: FileFn, line: nat, items: seq<Item>)
    requires Rectangular(items, p.n)
  {
    var row := Row(p.outer, key, line);
    && (row.Some? <==> Mentioned(items, "???", "???", key, line))
    && (row.Some? ==>
      && |row.value| == p.n
      && forall e :: 0 <= e < p.n ==> row.value[e] == Cell(items, p.n, "???", "???", key, line, e) % W64)
  }

  lemma StandsFor(desc: seq<string>, cmd: string, names: seq<string>, items: seq<Item>, stated: Counts)
    requires Rectangular(items, |names|) && Legible(items) && Good([], |names|) && names != []
    ensures var p := Profile(desc, cmd, EventsLine(names), |names|, Entered(items, |names|, "???", "???", []), stated);
      Stands(p, desc, cmd, names, items, stated)
  {
    hide EventsLine, Entered, Good, Legible, Cell, Mentioned;
    var n := |names|;
    var p := Profile(desc, cmd, EventsLine(names), n, Entered(items, n, "???", "???", []), stated);
    forall key: FileFn, line: nat
      ensures Given(p, key, line, items)
    {
      assert Row([], key, line).None?;
      CellIs(items, n, "???", "???", [], key, line, 0);
      hide Row;
      forall e | 0 <= e < n
        ensures At(Row(p.outer, key, line), n, e) == Cell(items, n, "???", "???", key, line, e) % W64
      {
        CellIs(items, n, "???", "???", [], key, line, e);
      }
    }
  }
}
