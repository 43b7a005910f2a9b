/** Profiles as text (cg_merge.c): printing, parsing, and that the one undoes the other. */
module ProfileText {
  import opened MachineWords
  import opened Decimal
  import opened WordFM
  import opened ProfileMap

  const HALF_WORD: nat := 0x8000_0000_0000_0000

  datatype Profile = Profile(desc: seq<string>, cmd: string, events: string, n: nat, outer: Outer, summary: Counts)

  /** The sums of all rows, as 64-bit numbers */
  ghost function SumOf(outer: Outer, n: nat): (c: Counts)
    requires Good(outer, n)
    ensures |c| == n
  {
    GoodSized(outer, n);
    seq(n, e requires 0 <= e < n => Total(outer, n, e) % W64)
  }

  // ---------------------------------------------------------------------------
  // Reading numbers

  predicate IsDigit(c: char) {
    '0' <= c <= '9'
  }

  predicate IsSpace(c: char) {
    c == ' ' || '\t' <= c <= '\r'
  }

  predicate IsAlpha(c: char) {
    'a' <= c <= 'z' || 'A' <= c <= 'Z'
  }

  function SkipSpace(s: string): (t: string)
    ensures |t| <= |s|
  {
    if s != [] && IsSpace(s[0]) then SkipSpace(s[1..]) else s
  }

  datatype Scan = Scan(ok: bool, value: nat, rest: string)

  function ParseDigits(s: string, acc: nat): (r: Scan)
    ensures |r.rest| <= |s| && (s != [] && IsDigit(s[0]) ==> |r.rest| < |s|)
  {
    if s != [] && IsDigit(s[0]) then ParseDigits(s[1..], (acc * 10 + (s[0] - '0') as nat) % W64) else Scan(true, acc, s)
  }

  /** parse_ULong */
  function ParseULong(s: string): (r: Scan)
    ensures |r.rest| <= |s| && (r.ok ==> |r.rest| < |s|)
  {
    var t := SkipSpace(s);
    if t == [] || !IsDigit(t[0]) then Scan(false, 0, t) else ParseDigits(t, 0)
  }

  /** All numbers up to the end of the line or junk */
  function ParseAll(s: string): (seq<nat>, string)
    decreases |s|
  {
    var r := ParseULong(s);
    if !r.ok then ([], r.rest)
    else
      var more := ParseAll(r.rest);
      ([r.value] + more.0, more.1)
  }

  /** How parsing ends: with a value, with an error message, or in the use of a line that is not there */
  datatype Parsed<+T> = Ok(value: T) | Err(message: string) | NullLine

  /** splitUpCountsLine */
  function Split(s: string, least: nat): (r: Parsed<seq<nat>>)
    ensures !r.NullLine?
  {
    var r := ParseAll(s);
    if r.1 != [] then Err("garbage in counts line")
    else if |r.0| < least then Err("too few counts in count line")
    else Ok(r.0)
  }

  // ---------------------------------------------------------------------------
  // Printing

  /** %lld of an unsigned 64-bit number */
  function ShowLong(v: nat): string
    requires v < W64
  {
    if v < HALF_WORD then Digits(v) else "-" + Digits(W64 - v)
  }

  predicate Words(c: Counts) {
    forall i :: 0 <= i < |c| ==> c[i] < W64
  }

  function ShowCounts(c: Counts): string
    requires Words(c)
  {
    if c == [] then [] else ShowLong(c[0]) + " " + ShowCounts(c[1..])
  }

  function ShowTail(c: Counts): string
    requires Words(c)
  {
    if c == [] then [] else " " + ShowLong(c[0]) + ShowTail(c[1..])
  }

  predicate InnerWords(inner: Inner) {
    forall i :: 0 <= i < |inner| ==> inner[i].0 < W64 && Words(inner[i].1)
  }

  predicate OuterWords(outer: Outer) {
    forall i :: 0 <= i < |outer| ==> InnerWords(outer[i].1)
  }

  function ShowInner(inner: Inner): seq<string>
    requires InnerWords(inner)
  {
    if inner == [] then []
    else [ShowLong(inner[0].0) + "   " + ShowCounts(inner[0].1)] + ShowInner(inner[1..])
  }

  function ShowOuter(outer: Outer): seq<string>
    requires OuterWords(outer)
  {
    if outer == [] then []
    else ["fl=" + outer[0].0.fi, "fn=" + outer[0].0.fn] + ShowInner(outer[0].1) + ShowOuter(outer[1..])
  }

  function Show(p: Profile): seq<string>
    requires OuterWords(p.outer) && Words(p.summary)
  {
    p.desc + [p.cmd, p.events] + ShowOuter(p.outer) + ["summary:" + ShowTail(p.summary)]
  }

  /** Lines to text and back */
  function Unlines(lines: seq<string>): string {
    if lines == [] then [] else lines[0] + "\n" + Unlines(lines[1..])
  }

  function FirstLine(text: string): (k: nat)
    ensures k <= |text|
  {
    if text == [] || text[0] == '\n' then 0 else 1 + FirstLine(text[1..])
  }

  /** What repeated readline calls return */
  function Lines(text: string): seq<string>
    decreases |text|
  {
    if text == [] then []
    else
      var k := FirstLine(text);
      [text[..k]] + if k < |text| then Lines(text[k + 1..]) else []
  }

  // ---------------------------------------------------------------------------
  // Parsing

  predicate Prefix(p: string, s: string) {
    p <= s
  }

  function CountEvents(events: string, from: nat): nat
    decreases if from < |events| then |events| - from else 0
  {
    if from + 1 >= |events| then 0
    else (if events[from] == ' ' && IsAlpha(events[from + 1]) then 1 else 0) + CountEvents(events, from + 1)
  }

  datatype Main = Main(outer: Outer, summary: Counts, summaryLine: string, rest: seq<string>)

  /** The loop over count, fn= and fl= lines, up to the summary line */
  function Body(lines: seq<string>, fl: string, fn: string, outer: Outer, summary: Counts): (r: Parsed<Main>)
    requires Good(outer, |summary|)
    ensures !r.NullLine?
    decreases |lines|
  {
    if lines == [] then Err("parse_CacheProfFile: eof before SUMMARY line")
    else
      var line := lines[0];
      if line != [] && IsDigit(line[0]) then
        match Split(line, 2)
        case Err(m) => Err(m)
        case Ok(ns) =>
          if |ns| - 1 != |summary| then Err("# counts doesn't match # events")
          else
            var c := ns[1..];
            AddRowGood(outer, FileFn(fl, fn), ns[0], c);
            Body(lines[1..], fl, fn, AddRow(outer, FileFn(fl, fn), ns[0], c), AddCounts(summary, c))
      else if Prefix("fn=", line) then Body(lines[1..], fl, line[3..], outer, summary)
      else if Prefix("fl=", line) then Body(lines[1..], line[3..], fn, outer, summary)
      else if Prefix("summary: ", line) then Ok(Main(outer, summary, line, lines[1..]))
      else Err("parse_CacheProfFile: unexpected line in main data")
  }

  function DescCount(lines: seq<string>): (k: nat)
    ensures k <= |lines|
  {
    if lines != [] && Prefix("desc: ", lines[0]) then 1 + DescCount(lines[1..]) else 0
  }

  /** After the main data: nothing more, and the stated summary is the computed one. */
  function Finish(desc: seq<string>, cmd: string, events: string, n: nat, m: Main): (r: Parsed<Profile>)
    ensures !r.NullLine?
  {
    if m.rest != [] then Err("parse_CacheProfFile: extraneous content after SUMMARY line")
    else if |m.summaryLine| < 8 then Err("parse_CacheProfFile: missing SUMMARY line")
    else
      match Split(m.summaryLine[8..], 1)
      case Err(e) => Err(e)
      case Ok(ns) =>
        if |ns| != n then Err("parse_CacheProfFile: wrong # counts in SUMMARY line")
        else if ns != m.summary then Err("parse_CacheProfFile: computed vs stated SUMMARY counts mismatch")
        else Ok(Profile(desc, cmd, events, n, m.outer, m.summary))
  }

  function Zeroed(n: nat): Counts {
    seq(n, _ => 0)
  }

  /** parse_CacheProfFile */
  function Parse(lines: seq<string>): Parsed<Profile> {
    var d := DescCount(lines);
    if d == 0 then Err("parse_CacheProfFile: no DESC lines present")
    else if d == |lines| then NullLine
    else if !Prefix("cmd: ", lines[d]) then Err("parse_CacheProfFile: no CMD line present")
    else if d + 1 == |lines| then Err("parse_CacheProfFile: eof before EVENTS line")
    else if !Prefix("events: ", lines[d + 1]) then Err("parse_CacheProfFile: no EVENTS line present")
    else
      var n := CountEvents(lines[d + 1], 6);
      match Body(lines[d + 2..], "???", "???", [], Zeroed(n))
      case Err(e) => Err(e)
      case Ok(m) => Finish(lines[..d], lines[d], lines[d + 1], n, m)
  }

  // ---------------------------------------------------------------------------
  // Numbers come back

  lemma DigitScan(d: nat, t: string, acc: nat)
    requires d < 10
    ensures ParseDigits([Digit(d)] + t, acc) == ParseDigits(t, (acc * 10 + d) % W64)
  {
    assert ([Digit(d)] + t)[1..] == t;
  }

  lemma {:induction false} DigitsScan(n: nat, t: string)
    requires n < W64
    ensures ParseDigits(Digits(n) + t, 0) == ParseDigits(t, n)
  {
    hide ParseDigits;
    if n < 10 {
      DigitScan(n, t, 0);
    } else {
      var d := [Digit(n % 10)];
      assert Digits(n) + t == Digits(n / 10) + (d + t);
      DigitsScan(n / 10, d + t);
      DigitScan(n % 10, t, n / 10);
      assert n / 10 * 10 + n % 10 == n;
    }
  }

  /** A number after blanks, followed by something that is no digit */
  lemma {:induction false} NumberScan(pre: string, n: nat, t: string)
    requires n < W64 && (t == [] || !IsDigit(t[0])) && forall i :: 0 <= i < |pre| ==> IsSpace(pre[i])
    ensures ParseULong(pre + Digits(n) + t) == Scan(true, n, t)
  {
    BlanksSkipped(pre, Digits(n) + t);
    assert pre + Digits(n) + t == pre + (Digits(n) + t);
    DigitsNumber(n);
    assert (Digits(n) + t)[0] == Digits(n)[0];
    DigitsScan(n, t);
  }

  lemma {:induction false} BlanksSkipped(pre: string, s: string)
    requires forall i :: 0 <= i < |pre| ==> IsSpace(pre[i])
    ensures SkipSpace(pre + s) == SkipSpace(s)
  {
    if pre == [] {
      assert pre + s == s;
    } else {
      assert (pre + s)[1..] == pre[1..] + s;
      BlanksSkipped(pre[1..], s);
    }
  }

  predicate Small(c: Counts) {
    forall i :: 0 <= i < |c| ==> c[i] < HALF_WORD
  }

  lemma ScanOn(s: string, v: nat, rest: string)
    requires ParseULong(s) == Scan(true, v, rest)
    ensures ParseAll(s) == ([v] + ParseAll(rest).0, ParseAll(rest).1)
  {
  }

  lemma BlanksOnly(pre: string)
    requires forall i :: 0 <= i < |pre| ==> IsSpace(pre[i])
    ensures ParseAll(pre) == ([], [])
  {
    BlanksSkipped(pre, []);
    assert pre + [] == pre;
  }

  lemma {:induction false} CountsScan(pre: string, c: Counts)
    requires Small(c) && forall i :: 0 <= i < |pre| ==> pre[i] == ' '
    ensures ParseAll(pre + ShowCounts(c)) == (c, [])
    decreases |c|
  {
    hide ParseULong, ParseAll, Digits;
    if c == [] {
      assert pre + ShowCounts(c) == pre;
      BlanksOnly(pre);
    } else {
      var more := " " + ShowCounts(c[1..]);
      assert pre + ShowCounts(c) == pre + Digits(c[0]) + more;
      hide ShowCounts;
      NumberScan(pre, c[0], more);
      ScanOn(pre + Digits(c[0]) + more, c[0], more);
      CountsScan(" ", c[1..]);
      assert c == [c[0]] + c[1..];
    }
  }

  lemma {:induction false} TailScan(c: Counts)
    requires Small(c)
    ensures ParseAll(ShowTail(c)) == (c, [])
  {
    if c != [] {
      var more := ShowTail(c[1..]);
      assert ShowTail(c) == " " + Digits(c[0]) + more;
      NumberScan(" ", c[0], more);
      TailScan(c[1..]);
      assert c == [c[0]] + c[1..];
    }
  }

  /** A printed row is split up into its line number and its counts. */
  lemma RowScan(line: nat, c: Counts)
    requires line < HALF_WORD && Small(c) && c != []
    ensures var s := ShowLong(line) + "   " + ShowCounts(c);
      s != [] && IsDigit(s[0]) && Split(s, 2) == Ok([line] + c)
  {
    var more := "   " + ShowCounts(c);
    assert ShowLong(line) + "   " + ShowCounts(c) == "" + Digits(line) + more;
    NumberScan("", line, more);
    CountsScan("   ", c);
    DigitsNumber(line);
  }

  // ---------------------------------------------------------------------------
  // The main data comes back

  /** Rows of one function, entered one after the other */
  ghost function AddRows(outer: Outer, key: FileFn, rows: Inner, n: nat): (r: Outer)
    requires Good(outer, n) && Sized(rows, n)
    ensures Good(r, n)
    decreases |rows|
  {
    if rows == [] then outer
    else
      AddRowGood(outer, key, rows[0].0, rows[0].1);
      AddRows(AddRow(outer, key, rows[0].0, rows[0].1), key, rows[1..], n)
  }

  lemma SumAddRow(outer: Outer, key: FileFn, line: nat, c: Counts)
    requires Good(outer, |c|)
    ensures Good(AddRow(outer, key, line, c), |c|)
    ensures AddCounts(SumOf(outer, |c|), c) == SumOf(AddRow(outer, key, line, c), |c|)
  {
    AddRowGood(outer, key, line, c);
    forall e | 0 <= e < |c|
      ensures AddCounts(SumOf(outer, |c|), c)[e] == SumOf(AddRow(outer, key, line, c), |c|)[e]
    {
      AddRowTotal(outer, key, line, c, e);
      ModAdd(Total(outer, |c|, e), c[e], W64);
    }
  }

  predicate SmallInner(inner: Inner) {
    forall i :: 0 <= i < |inner| ==> inner[i].0 < HALF_WORD && Small(inner[i].1)
  }

  function ShowRow(line: nat, c: Counts): string
    requires line < W64 && Words(c)
  {
    ShowLong(line) + "   " + ShowCounts(c)
  }

  /** One printed row is read back into the map. */
  lemma RowRead(line: nat, c: Counts, rest: seq<string>, fl: string, fn: string, outer: Outer, n: nat)
    requires line < HALF_WORD && Small(c) && |c| == n > 0 && Good(outer, n)
    ensures var next := AddRow(outer, FileFn(fl, fn), line, c);
      && Good(next, n)
      && Body([ShowRow(line, c)] + rest, fl, fn, outer, SumOf(outer, n)) == Body(rest, fl, fn, next, SumOf(next, n))
  {
    hide AddRow, SumOf, ShowCounts, ShowLong, Split, ParseAll, AddCounts, Good;
    RowScan(line, c);
    SumAddRow(outer, FileFn(fl, fn), line, c);
    assert ([line] + c)[1..] == c && ([ShowRow(line, c)] + rest)[1..] == rest;
  }

  lemma {:induction false} BodyRows(rows: Inner, tail: seq<string>, fl: string, fn: string, outer: Outer, n: nat)
    requires n > 0 && Good(outer, n) && Sized(rows, n) && SmallInner(rows)
    ensures Body(ShowInner(rows) + tail, fl, fn, outer, SumOf(outer, n)) ==
      Body(tail, fl, fn, AddRows(outer, FileFn(fl, fn), rows, n), SumOf(AddRows(outer, FileFn(fl, fn), rows, n), n))
    decreases |rows|
  {
    hide AddRow, SumOf, ShowCounts, ShowLong, Split, ParseAll, AddCounts;
    if rows == [] {
      assert ShowInner(rows) + tail == tail;
    } else {
      var key, line, c := FileFn(fl, fn), rows[0].0, rows[0].1;
      var rest := ShowInner(rows[1..]) + tail;
      assert ShowInner(rows) + tail == [ShowRow(line, c)] + rest;
      hide Body, Good;
      RowRead(line, c, rest, fl, fn, outer, n);
      BodyRows(rows[1..], tail, fl, fn, AddRow(outer, key, line, c), n);
    }
  }

  ghost predicate Below(outer: Outer, key: FileFn) {
    forall p :: p in outer ==> CmpFileFn(p.0, key) < 0
  }

  /** Entering a row that comes after all others of the last function appends it. */
  lemma AddRowLast(pre: Outer, key: FileFn, done: Inner, line: nat, c: Counts)
    requires Good(pre + [(key, done)], |c|) && Below(pre, key) && Ascending(done + [(line, c)], CmpLine)
    ensures AddRow(pre + [(key, done)], key, line, c) == pre + [(key, done + [(line, c)])]
  {
    FileFnOrder();
    LineOrder();
    assert Lawful(CmpFileFn, key, key, key);
    var outer := pre + [(key, done)];
    FindLast(pre, key, done);
    RowsBelow(done, line, c);
    FindLast(done, line, c);
    PutLast(done, line, c, CmpLine);
    InnerGood(outer, key, |c|);
    PutOverLast(pre, key, done, done + [(line, c)], CmpFileFn);
  }

  lemma RowsBelow(done: Inner, line: nat, c: Counts)
    requires Ascending(done + [(line, c)], CmpLine)
    ensures forall p :: p in done ==> CmpLine(p.0, line) < 0
  {
    var s := done + [(line, c)];
    forall p | p in done
      ensures CmpLine(p.0, line) < 0
    {
      var i :| 0 <= i < |done| && done[i] == p;
      assert s[i] == p && s[|done|] == (line, c);
    }
  }

  lemma {:induction false} AddRowsLast(pre: Outer, key: FileFn, done: Inner, rows: Inner, n: nat)
    requires Good(pre + [(key, done)], n) && Below(pre, key) && GoodInner(done + rows, n) && Sized(rows, n)
    ensures AddRows(pre + [(key, done)], key, rows, n) == pre + [(key, done + rows)]
    decreases |rows|
  {
    hide AddRow;
    if rows == [] {
      assert done + rows == done;
    } else {
      var line, c := rows[0].0, rows[0].1;
      var more := done + [(line, c)];
      assert more + rows[1..] == done + rows;
      assert forall i :: 0 <= i < |more| ==> more[i] == (done + rows)[i];
      AddRowLast(pre, key, done, line, c);
      AddRowGood(pre + [(key, done)], key, line, c);
      AddRowsLast(pre, key, more, rows[1..], n);
    }
  }

  /** Entering all rows of a function that comes after all others appends the function. */
  lemma AddRowsNew(pre: Outer, key: FileFn, rows: Inner, n: nat)
    requires Good(pre + [(key, rows)], n) && Good(pre, n) && Below(pre, key) && rows != [] && GoodInner(rows, n)
    ensures AddRows(pre, key, rows, n) == pre + [(key, rows)]
  {
    FileFnOrder();
    var line, c := rows[0].0, rows[0].1;
    assert Lawful(CmpFileFn, key, key, key);
    FindLast(pre, key, rows);
    PutLast(pre, key, [(line, c)], CmpFileFn);
    AddRowGood(pre, key, line, c);
    assert AddToInner([], line, c) == [(line, c)];
    assert AddRow(pre, key, line, c) == pre + [(key, [(line, c)])];
    assert [(line, c)] + rows[1..] == rows;
    AddRowsLast(pre, key, [(line, c)], rows[1..], n);
  }

  predicate SmallOuter(outer: Outer) {
    forall i :: 0 <= i < |outer| ==> SmallInner(outer[i].1)
  }

  lemma GoodParts(o1: Outer, x: (FileFn, Inner), o2: Outer, n: nat)
    requires Good(o1 + [x] + o2, n)
    ensures Good(o1, n) && Good(o1 + [x], n) && Below(o1, x.0) && x.1 != [] && GoodInner(x.1, n)
  {
    var s := o1 + [x] + o2;
    assert s[|o1|] == x;
    assert forall i :: 0 <= i < |o1| ==> s[i] == o1[i];
    assert forall i :: 0 <= i < |o1 + [x]| ==> s[i] == (o1 + [x])[i];
    forall p | p in o1
      ensures CmpFileFn(p.0, x.0) < 0
    {
      var i :| 0 <= i < |o1| && o1[i] == p;
      assert s[i] == p;
    }
  }

  lemma GoodInnerSized(inner: Inner, n: nat)
    requires GoodInner(inner, n)
    ensures Sized(inner, n)
  {
  }

  lemma LastLine(o: Outer, last: string, fl: string, fn: string, outer: Outer, sum: Counts)
    requires o == [] && Good(outer, |sum|) && Prefix("summary: ", last)
    ensures Body(ShowOuter(o) + [last], fl, fn, outer, sum) == Ok(Main(outer, sum, last, []))
  {
    assert ShowOuter(o) + [last] == [last];
    assert last[0] == 's' && [last][1..] == [];
  }

  /** Reading what was printed of the functions still to come completes the map. */
  lemma {:induction false} BodyOuter(o2: Outer, last: string, fl: string, fn: string, o1: Outer, n: nat)
    requires n > 0 && Good(o1, n) && Good(o1 + o2, n) && SmallOuter(o2) && Prefix("summary: ", last)
    ensures Body(ShowOuter(o2) + [last], fl, fn, o1, SumOf(o1, n)) == Ok(Main(o1 + o2, SumOf(o1 + o2, n), last, []))
    decreases |o2|
  {
    hide Good, GoodInner, SumOf, Body, ShowOuter, ShowInner, AddRows;
    if o2 == [] {
      assert o1 + o2 == o1;
      LastLine(o2, last, fl, fn, o1, SumOf(o1, n));
    } else {
      var key, inner := o2[0].0, o2[0].1;
      assert o1 + o2 == o1 + [o2[0]] + o2[1..];
      GoodParts(o1, o2[0], o2[1..], n);
      GoodInnerSized(inner, n);
      NamesRead(o2, last, fl, fn, o1, n);
      BodyRows(inner, ShowOuter(o2[1..]) + [last], key.fi, key.fn, o1, n);
      AddRowsNew(o1, key, inner, n);
      assert o2[0] == (key, inner);
      BodyOuter(o2[1..], last, key.fi, key.fn, o1 + [o2[0]], n);
    }
  }

  /** The fl= and fn= lines set the current names. */
  lemma NamesRead(o2: Outer, last: string, fl: string, fn: string, o1: Outer, n: nat)
    requires o2 != [] && Good(o1, n) && OuterWords(o2)
    ensures Body(ShowOuter(o2) + [last], fl, fn, o1, SumOf(o1, n)) ==
      Body(ShowInner(o2[0].1) + (ShowOuter(o2[1..]) + [last]), o2[0].0.fi, o2[0].0.fn, o1, SumOf(o1, n))
  {
    hide SumOf, ShowInner, Good, AddRow, Split;
    var a, b := "fl=" + o2[0].0.fi, "fn=" + o2[0].0.fn;
    var rest := ShowInner(o2[0].1) + (ShowOuter(o2[1..]) + [last]);
    assert ShowOuter(o2) + [last] == [a] + ([b] + rest);
    FileName(o2[0].0.fi, [b] + rest, fl, fn, o1, SumOf(o1, n));
    FunctionName(o2[0].0.fn, rest, o2[0].0.fi, fn, o1, SumOf(o1, n));
  }

  lemma FileName(name: string, rest: seq<string>, fl: string, fn: string, outer: Outer, sum: Counts)
    requires Good(outer, |sum|)
    ensures Body(["fl=" + name] + rest, fl, fn, outer, sum) == Body(rest, name, fn, outer, sum)
  {
    var line := "fl=" + name;
    assert line[0] == 'f' && line[1] == 'l' && line[3..] == name;
    assert ([line] + rest)[1..] == rest;
    assert "fn="[1] == 'n';
  }

  lemma FunctionName(name: string, rest: seq<string>, fl: string, fn: string, outer: Outer, sum: Counts)
    requires Good(outer, |sum|)
    ensures Body(["fn=" + name] + rest, fl, fn, outer, sum) == Body(rest, fl, name, outer, sum)
  {
    var line := "fn=" + name;
    assert line[0] == 'f' && line[3..] == name;
    assert ([line] + rest)[1..] == rest;
  }

  // ---------------------------------------------------------------------------
  // The whole file comes back

  predicate OneLine(s: string) {
    '\n' !in s
  }

  /** A profile as the parser builds and the merge keeps it: one-line names, 64-bit numbers */
  ghost predicate Presentable(p: Profile) {
    && p.desc != [] && (forall i :: 0 <= i < |p.desc| ==> Prefix("desc: ", p.desc[i]) && OneLine(p.desc[i]))
    && Prefix("cmd: ", p.cmd) && OneLine(p.cmd) && Prefix("events: ", p.events) && OneLine(p.events)
    && p.n == CountEvents(p.events, 6)
    && Good(p.outer, p.n) && OuterWords(p.outer) && p.summary == SumOf(p.outer, p.n)
    && forall i :: 0 <= i < |p.outer| ==> OneLine(p.outer[i].0.fi) && OneLine(p.outer[i].0.fn)
  }

  /** What can be printed and read back: at least one event, and every number below 2^63 */
  predicate Fits(p: Profile) {
    p.n > 0 && SmallOuter(p.outer) && Small(p.summary)
  }

  lemma SumWords(outer: Outer, n: nat)
    requires Good(outer, n)
    ensures Words(SumOf(outer, n))
  {
  }

  lemma {:induction false} DescCounted(desc: seq<string>, rest: seq<string>)
    requires forall i :: 0 <= i < |desc| ==> Prefix("desc: ", desc[i])
    requires rest == [] || !Prefix("desc: ", rest[0])
    ensures DescCount(desc + rest) == |desc|
  {
    if desc == [] {
      assert desc + rest == rest;
    } else {
      assert (desc + rest)[1..] == desc[1..] + rest;
      DescCounted(desc[1..], rest);
    }
  }

  lemma EmptySum(n: nat)
    ensures Good([], n) && SumOf([], n) == Zeroed(n)
  {
  }

  /** Parsing printed lines comes down to the main data and the check of the summary. */
  lemma ParseMain(p: Profile)
    requires Presentable(p)
    ensures Words(p.summary) && Good([], p.n)
    ensures Parse(Show(p)) ==
      match Body(ShowOuter(p.outer) + ["summary:" + ShowTail(p.summary)], "???", "???", [], SumOf([], p.n))
      case Err(e) => Err(e)
      case Ok(m) => Finish(p.desc, p.cmd, p.events, p.n, m)
  {
    hide ShowOuter, SumOf, Good, ShowTail, Total, Body, Finish;
    SumWords(p.outer, p.n);
    var main := ShowOuter(p.outer) + ["summary:" + ShowTail(p.summary)];
    var lines := Show(p);
    assert lines == p.desc + ([p.cmd, p.events] + main);
    assert p.cmd[0] == 'c';
    DescCounted(p.desc, [p.cmd, p.events] + main);
    var d := |p.desc|;
    assert lines[d] == p.cmd && lines[d + 1] == p.events && lines[d + 2..] == main && lines[..d] == p.desc;
    EmptySum(p.n);
  }

  /** Parsing the printed lines gives the profile back. */
  lemma ParseShow(p: Profile)
    requires Presentable(p) && Fits(p)
    ensures Words(p.summary) && Parse(Show(p)) == Ok(p)
  {
    hide ShowOuter, SumOf, Good, ShowTail, Total, Show, Parse;
    ParseMain(p);
    SummaryLine(p.summary);
    assert [] + p.outer == p.outer;
    BodyOuter(p.outer, "summary:" + ShowTail(p.summary), "???", "???", [], p.n);
  }

  lemma SummaryLine(c: Counts)
    requires Small(c) && c != []
    ensures var s := "summary:" + ShowTail(c);
      Prefix("summary: ", s) && Split(s[8..], 1) == Ok(c)
  {
    hide ParseAll;
    TailScan(c);
    AfterColon(ShowTail(c));
    SummarySpace(c);
  }

  // ---------------------------------------------------------------------------
  // What does not come back

  /** A number of 2^63 or more is printed with a sign, which the parser takes for junk. */
  lemma {:induction false} SignScan(pre: string, v: nat, t: string)
    requires HALF_WORD <= v < W64 && forall i :: 0 <= i < |pre| ==> pre[i] == ' '
    ensures !ParseULong(pre + ShowLong(v) + t).ok && ParseULong(pre + ShowLong(v) + t).rest != []
  {
    var s := ShowLong(v) + t;
    assert pre + ShowLong(v) + t == pre + s;
    BlanksSkipped(pre, s);
    assert s[0] == '-';
  }

  lemma {:induction false} CountsJunk(pre: string, c: Counts)
    requires Words(c) && !Small(c) && forall i :: 0 <= i < |pre| ==> pre[i] == ' '
    ensures ParseAll(pre + ShowCounts(c)).1 != []
    decreases |c|
  {
    hide ParseULong;
    var more := " " + ShowCounts(c[1..]);
    assert pre + ShowCounts(c) == pre + ShowLong(c[0]) + more;
    if c[0] < HALF_WORD {
      NumberScan(pre, c[0], more);
      CountsJunk(" ", c[1..]);
    } else {
      SignScan(pre, c[0], more);
    }
  }

  lemma {:induction false} TailJunk(c: Counts)
    requires Words(c) && !Small(c)
    ensures ParseAll(ShowTail(c)).1 != []
  {
    hide ParseULong;
    var more := ShowTail(c[1..]);
    assert ShowTail(c) == " " + ShowLong(c[0]) + more;
    if c[0] < HALF_WORD {
      TailStart(c[1..]);
      NumberScan(" ", c[0], more);
      TailJunk(c[1..]);
    } else {
      SignScan(" ", c[0], more);
    }
  }

  lemma TailStart(c: Counts)
    requires Words(c)
    ensures ShowTail(c) == [] || ShowTail(c)[0] == ' '
  {
  }

  /** A row with too large a number, or without counts, stops the parser. */
  lemma RowJunk(line: nat, c: Counts, rest: seq<string>, fl: string, fn: string, outer: Outer, sum: Counts)
    requires line < W64 && Words(c) && (line >= HALF_WORD || !Small(c) || c == []) && Good(outer, |sum|)
    ensures Body([ShowLong(line) + "   " + ShowCounts(c)] + rest, fl, fn, outer, sum).Err?
  {
    hide Split, ShowCounts, AddRow;
    var s := ShowLong(line) + "   " + ShowCounts(c);
    assert ([s] + rest)[0] == s;
    if line >= HALF_WORD {
      assert s[0] == '-';
    } else {
      DigitsNumber(line);
      assert IsDigit(s[0]);
      RowNotSplit(line, c);
    }
  }

  lemma RowNotSplit(line: nat, c: Counts)
    requires line < HALF_WORD && Words(c) && (!Small(c) || c == [])
    ensures Split(ShowLong(line) + "   " + ShowCounts(c), 2).Err?
  {
    hide ShowCounts, ParseULong;
    var more := "   " + ShowCounts(c);
    assert ShowLong(line) + "   " + ShowCounts(c) == "" + Digits(line) + more;
    NumberScan("", line, more);
    if c == [] {
      CountsScan("   ", c);
    } else {
      CountsJunk("   ", c);
    }
  }

  lemma {:induction false} RowsJunk(rows: Inner, tail: seq<string>, fl: string, fn: string, outer: Outer, n: nat)
    requires Good(outer, n) && Sized(rows, n) && InnerWords(rows) && rows != [] && (n == 0 || !SmallInner(rows))
    ensures Body(ShowInner(rows) + tail, fl, fn, outer, SumOf(outer, n)).Err?
    decreases |rows|
  {
    hide AddRow, SumOf, ShowCounts, ShowLong, Split, ParseAll, AddCounts;
    var key, line, c := FileFn(fl, fn), rows[0].0, rows[0].1;
    var rest := ShowInner(rows[1..]) + tail;
    assert ShowInner(rows) + tail == [ShowRow(line, c)] + rest;
    hide Body, Good;
    if line >= HALF_WORD || !Small(c) || c == [] {
      RowJunk(line, c, rest, fl, fn, outer, SumOf(outer, n));
    } else {
      RowRead(line, c, rest, fl, fn, outer, n);
      RowsJunk(rows[1..], tail, fl, fn, AddRow(outer, key, line, c), n);
    }
  }

  lemma {:induction false} OuterJunk(o2: Outer, last: string, fl: string, fn: string, o1: Outer, n: nat)
    requires Good(o1, n) && Good(o1 + o2, n) && OuterWords(o2) && o2 != [] && (n == 0 || !SmallOuter(o2))
    ensures Body(ShowOuter(o2) + [last], fl, fn, o1, SumOf(o1, n)).Err?
    decreases |o2|
  {
    var key, inner := o2[0].0, o2[0].1;
    assert o1 + o2 == o1 + [o2[0]] + o2[1..];
    GoodParts(o1, o2[0], o2[1..], n);
    NamesRead(o2, last, fl, fn, o1, n);
    if n == 0 || !SmallInner(inner) {
      RowsJunk(inner, ShowOuter(o2[1..]) + [last], key.fi, key.fn, o1, n);
    } else {
      BodyRows(inner, ShowOuter(o2[1..]) + [last], key.fi, key.fn, o1, n);
      AddRowsNew(o1, key, inner, n);
      assert o2[0] == (key, inner);
      OuterJunk(o2[1..], last, key.fi, key.fn, o1 + [o2[0]], n);
    }
  }

  lemma ParseFails(p: Profile)
    requires Presentable(p) && !Fits(p)
    ensures Words(p.summary) && Parse(Show(p)).Err?
  {
    hide ShowOuter, SumOf, Good, Total, Show, Parse, Split;
    ParseMain(p);
    var last := "summary:" + ShowTail(p.summary);
    assert [] + p.outer == p.outer;
    if p.outer != [] && (p.n == 0 || !SmallOuter(p.outer)) {
      OuterJunk(p.outer, last, "???", "???", [], p.n);
    } else if p.n == 0 {
      NoEvents(p, last);
    } else {
      TailStart(p.summary);
      SummarySpace(p.summary);
      BodyOuter(p.outer, last, "???", "???", [], p.n);
      SummaryJunk(p.summary);
    }
  }

  /** Without events the summary line lacks the blank it is recognised by. */
  lemma NoEvents(p: Profile, last: string)
    requires Presentable(p) && p.n == 0 && p.outer == [] && last == "summary:" + ShowTail(p.summary)
    ensures Body(ShowOuter(p.outer) + [last], "???", "???", [], SumOf([], p.n)).Err?
  {
    assert p.summary == [];
    assert last == "summary:";
    assert ShowOuter(p.outer) + [last] == [last];
    assert last[0] == 's';
  }

  lemma SummarySpace(c: Counts)
    requires Words(c) && c != []
    ensures Prefix("summary: ", "summary:" + ShowTail(c))
  {
    hide Digits;
    SpaceAfter(ShowLong(c[0]) + ShowTail(c[1..]));
    assert ShowTail(c) == " " + (ShowLong(c[0]) + ShowTail(c[1..]));
  }

  lemma SpaceAfter(t: string)
    ensures Prefix("summary: ", "summary:" + (" " + t))
  {
  }

  lemma AfterColon(t: string)
    ensures ("summary:" + t)[8..] == t
  {
  }

  lemma SummaryJunk(c: Counts)
    requires Words(c) && !Small(c)
    ensures Split(("summary:" + ShowTail(c))[8..], 1).Err?
  {
    AfterColon(ShowTail(c));
    TailJunk(c);
  }

  // ---------------------------------------------------------------------------
  // Text

  lemma {:induction false} FirstLineIs(line: string, rest: string)
    requires OneLine(line)
    ensures FirstLine(line + "\n" + rest) == |line|
  {
    if line != [] {
      assert (line + "\n" + rest)[1..] == line[1..] + "\n" + rest;
      FirstLineIs(line[1..], rest);
    }
  }

  lemma {:induction false} LinesUnlines(lines: seq<string>)
    requires forall i :: 0 <= i < |lines| ==> OneLine(lines[i])
    ensures Lines(Unlines(lines)) == lines
  {
    if lines != [] {
      var text := Unlines(lines);
      FirstLineIs(lines[0], Unlines(lines[1..]));
      assert text[..|lines[0]|] == lines[0] && text[|lines[0]| + 1..] == Unlines(lines[1..]);
      LinesUnlines(lines[1..]);
    }
  }

  lemma {:induction false} DigitsOneLine(n: nat)
    ensures OneLine(Digits(n))
  {
    DigitsNumber(n);
  }

  lemma {:induction false} CountsOneLine(c: Counts)
    requires Words(c)
    ensures OneLine(ShowCounts(c)) && OneLine(ShowTail(c))
  {
    if c != [] {
      CountsOneLine(c[1..]);
      DigitsOneLine(c[0]);
      DigitsOneLine(W64 - c[0]);
    }
  }

  lemma {:induction false} InnerOneLine(inner: Inner)
    requires InnerWords(inner)
    ensures forall s :: s in ShowInner(inner) ==> OneLine(s)
  {
    if inner != [] {
      CountsOneLine(inner[0].1);
      DigitsOneLine(inner[0].0);
      DigitsOneLine(W64 - inner[0].0);
      InnerOneLine(inner[1..]);
    }
  }

  lemma {:induction false} OuterOneLine(outer: Outer)
    requires OuterWords(outer) && forall i :: 0 <= i < |outer| ==> OneLine(outer[i].0.fi) && OneLine(outer[i].0.fn)
    ensures forall s :: s in ShowOuter(outer) ==> OneLine(s)
  {
    if outer != [] {
      InnerOneLine(outer[0].1);
      OuterOneLine(outer[1..]);
    }
  }

  lemma ShownOneLine(p: Profile)
    requires Presentable(p) && Words(p.summary)
    ensures forall i :: 0 <= i < |Show(p)| ==> OneLine(Show(p)[i])
  {
    hide ShowOuter, ShowTail, Good, SumOf;
    var lines := Show(p);
    OuterOneLine(p.outer);
    CountsOneLine(p.summary);
    forall i | 0 <= i < |lines|
      ensures OneLine(lines[i])
    {
      assert lines[i] in p.desc || lines[i] in [p.cmd, p.events] || lines[i] in ShowOuter(p.outer) ||
        lines[i] == "summary:" + ShowTail(p.summary);
    }
  }

  /** The round trip, through the text of the file: it gives the profile back exactly when there is an event to
      count and every number is below 2^63; otherwise parsing fails. */
  lemma RoundTrip(p: Profile)
    requires Presentable(p)
    ensures Words(p.summary)
    ensures var r := Parse(Lines(Unlines(Show(p))));
      if Fits(p) then r == Ok(p) else r.Err?
  {
    hide Parse, Good, SumOf, Show, Fits;
    SumWords(p.outer, p.n);
    ShownOneLine(p);
    LinesUnlines(Show(p));
    if Fits(p) {
      ParseShow(p);
    } else {
      ParseFails(p);
    }
  }
}
