/** What one set of a simulated cache does: the tags it holds, most recently used first.
    A set behaves as a least-recently-used stack, and wider sets include narrower ones. */
module CacheSets {

  type Row = seq<nat>

  function IndexOf(row: Row, tag: nat): (i: nat)
    ensures i <= |row|
    ensures i < |row| ==> row[i] == tag
    ensures forall j :: 0 <= j < i ==> row[j] != tag
  {
    if row == [] || row[0] == tag then 0 else 1 + IndexOf(row[1..], tag)
  }

  /** Where a reference takes its tag from: the hit position, or the last slot on a miss. */
  function Cut(row: Row, tag: nat): (c: nat)
    requires row != []
    ensures c < |row|
  {
    var i := IndexOf(row, tag);
    if i < |row| then i else i - 1
  }

  /** A reference moves its tag to the front; on a miss the last tag drops out. */
  function Touch(row: Row, tag: nat): (r: Row)
    requires row != []
    ensures |r| == |row|
  {
    var c := Cut(row, tag);
    [tag] + row[..c] + row[c + 1..]
  }

  lemma TouchAt(row: Row, tag: nat, k: nat)
    requires k < |row|
    ensures Touch(row, tag)[k] == if k == 0 then tag else if k <= Cut(row, tag) then row[k - 1] else row[k]
  {
    hide IndexOf;
  }

  function TouchAll(row: Row, trace: seq<nat>): (r: Row)
    requires row != []
    ensures |r| == |row|
  {
    if trace == [] then row else Touch(TouchAll(row, trace[..|trace| - 1]), trace[|trace| - 1])
  }

  // ---------------------------------------------------------------------------
  // The textbook description of least-recently-used

  function Without(s: seq<nat>, b: nat): (r: seq<nat>)
    ensures |r| == if IndexOf(s, b) < |s| then |s| - 1 else |s|
  {
    var i := IndexOf(s, b);
    if i < |s| then s[..i] + s[i + 1..] else s
  }

  /** The distinct blocks of a trace, most recently referenced first. */
  function Recency(trace: seq<nat>): seq<nat> {
    if trace == [] then []
    else [trace[|trace| - 1]] + Without(Recency(trace[..|trace| - 1]), trace[|trace| - 1])
  }

  /** The other blocks referenced since block b last was. */
  function Since(trace: seq<nat>, b: nat): set<nat> {
    if trace == [] || trace[|trace| - 1] == b then {}
    else Since(trace[..|trace| - 1], b) + {trace[|trace| - 1]}
  }

  /** Least-recently-used with `assoc` ways: a reference misses if the block was never referenced, or
      at least `assoc` other blocks have been referenced since. */
  ghost predicate TextbookMiss(trace: seq<nat>, b: nat, assoc: nat) {
    b !in trace || |Since(trace, b)| >= assoc
  }

  function Zeros(n: nat): Row {
    seq(n, _ => 0)
  }

  ghost predicate NoRepeats(s: seq<nat>) {
    forall i, j :: 0 <= i < j < |s| ==> s[i] != s[j]
  }

  ghost function Elems(s: seq<nat>): set<nat> {
    set x | x in s
  }

  lemma {:induction false} ElemsCount(s: seq<nat>)
    requires NoRepeats(s)
    ensures |Elems(s)| == |s|
  {
    if s != [] {
      var r := s[..|s| - 1];
      ElemsCount(r);
      assert Elems(s) == Elems(r) + {s[|s| - 1]};
    }
  }

  lemma ElemsPlus(a: seq<nat>, b: seq<nat>)
    ensures Elems(a + b) == Elems(a) + Elems(b)
  {
  }

  /** Lifting x out of s[..] and putting it in front. */
  lemma FrontElems(u: seq<nat>, x: nat, v: seq<nat>)
    ensures Elems([x] + u + v) == Elems(u + [x] + v)
  {
  }

  lemma WithoutHolds(s: seq<nat>, x: nat)
    requires NoRepeats(s)
    ensures NoRepeats([x] + Without(s, x))
    ensures Elems([x] + Without(s, x)) == Elems(s) + {x}
  {
    hide IndexOf;
    var i := IndexOf(s, x);
    if i < |s| {
      var u, v := s[..i], s[i + 1..];
      assert s == u + [x] + v && [x] + Without(s, x) == [x] + u + v;
      FrontElems(u, x, v);
    } else {
      ElemsPlus([x], s);
    }
  }

  lemma IndexIs(s: seq<nat>, b: nat, i: nat)
    requires NoRepeats(s) && i < |s| && s[i] == b
    ensures IndexOf(s, b) == i
  {
  }

  /** Moving x to the front leaves b behind the same blocks, and x. */
  lemma AheadOf(s: seq<nat>, x: nat, b: nat)
    requires NoRepeats(s) && b in s && b != x
    ensures var t := [x] + Without(s, x); b in t && Elems(t[..IndexOf(t, b)]) == Elems(s[..IndexOf(s, b)]) + {x}
  {
    hide IndexOf, Elems, NoRepeats;
    WithoutHolds(s, x);
    var t := [x] + Without(s, x);
    var i, j := IndexOf(s, b), IndexOf(s, x);
    if j < i {
      AheadBefore(s, t, x, b, i, j);
    } else {
      AheadAfter(s, t, x, b, i, j);
    }
  }

  lemma AheadBefore(s: seq<nat>, t: seq<nat>, x: nat, b: nat, i: nat, j: nat)
    requires j < i < |s| && s[i] == b && s[j] == x && t == [x] + s[..j] + s[j + 1..] && NoRepeats(t)
    ensures b in t && Elems(t[..IndexOf(t, b)]) == Elems(s[..i]) + {x}
  {
    hide IndexOf, Elems;
    var u, v := s[..j], s[j + 1..i];
    assert t[i] == b;
    IndexIs(t, b, i);
    assert t[..i] == [x] + u + v;
    assert s[..i] == u + [x] + v;
    FrontElems(u, x, v);
    XIn(u, x, v);
  }

  lemma AheadAfter(s: seq<nat>, t: seq<nat>, x: nat, b: nat, i: nat, j: nat)
    requires i < j <= |s| && i < |s| && s[i] == b && NoRepeats(t)
    requires t == [x] + s[..j] + if j < |s| then s[j + 1..] else []
    ensures b in t && Elems(t[..IndexOf(t, b)]) == Elems(s[..i]) + {x}
  {
    hide IndexOf, Elems;
    assert t[i + 1] == b;
    IndexIs(t, b, i + 1);
    assert t[..i + 1] == [x] + s[..i];
    XIn([], x, s[..i]);
    ElemsPlus([x], s[..i]);
    XIn([], x, []);
    assert [] + [x] + [] == [x];
  }

  lemma XIn(u: seq<nat>, x: nat, v: seq<nat>)
    ensures Elems(u + [x] + v) + {x} == Elems(u + [x] + v) && Elems([x]) == {x}
  {
  }

  lemma FrontIndex(s: seq<nat>, b: nat)
    requires s != [] && s[0] == b
    ensures IndexOf(s, b) == 0 && Elems(s[..IndexOf(s, b)]) == {}
  {
  }

  lemma {:induction false} RecencyElems(trace: seq<nat>)
    ensures NoRepeats(Recency(trace)) && Elems(Recency(trace)) == Elems(trace)
  {
    hide NoRepeats, Elems, Without, IndexOf;
    if trace == [] {
      NothingRecent(trace);
    } else {
      var past, x := trace[..|trace| - 1], trace[|trace| - 1];
      RecencyElems(past);
      RecencyStep(Recency(past), past, x);
      LastApart(trace);
    }
  }

  lemma NothingRecent(trace: seq<nat>)
    requires trace == []
    ensures NoRepeats(Recency(trace)) && Elems(Recency(trace)) == Elems(trace)
  {
  }

  lemma LastApart(s: seq<nat>)
    requires s != []
    ensures s == s[..|s| - 1] + [s[|s| - 1]]
  {
  }

  lemma RecencyStep(recent: seq<nat>, past: seq<nat>, x: nat)
    requires NoRepeats(recent) && Elems(recent) == Elems(past)
    ensures NoRepeats([x] + Without(recent, x)) && Elems([x] + Without(recent, x)) == Elems(past + [x])
  {
    hide NoRepeats, Elems, Without, IndexOf;
    WithoutHolds(recent, x);
    ElemsSnoc(past, x);
  }

  lemma ElemsSnoc(s: seq<nat>, x: nat)
    ensures Elems(s + [x]) == Elems(s) + {x}
  {
  }

  lemma {:induction false} RecencyHolds(trace: seq<nat>, b: nat)
    ensures NoRepeats(Recency(trace)) && Elems(Recency(trace)) == Elems(trace)
    ensures b in trace ==> Since(trace, b) == Elems(Recency(trace)[..IndexOf(Recency(trace), b)])
  {
    RecencyElems(trace);
    if b in trace {
      hide IndexOf, NoRepeats, Without, Elems;
      var past, x := trace[..|trace| - 1], trace[|trace| - 1];
      if b == x {
        FrontIndex(Recency(trace), b);
      } else {
        assert trace == past + [x];
        RecencyHolds(past, b);
        InElems(Recency(past), past, b);
        AheadOf(Recency(past), x, b);
      }
    }
  }

  lemma InElems(s: seq<nat>, t: seq<nat>, b: nat)
    requires Elems(s) == Elems(t) && b in t
    ensures b in s
  {
    assert b in Elems(t);
  }

  /** A block's place in the recency order is the number of other blocks referenced since. */
  lemma RecencyPlace(trace: seq<nat>, b: nat)
    requires b in trace
    ensures IndexOf(Recency(trace), b) == |Since(trace, b)| < |Recency(trace)|
  {
    hide IndexOf, Recency, Since;
    RecencyHolds(trace, b);
    var r := Recency(trace);
    assert b in Elems(r);
    ElemsCount(r[..IndexOf(r, b)]);
  }

  // ---------------------------------------------------------------------------
  // A set is a window on the recency order

  ghost function Window(r: seq<nat>, assoc: nat): (w: Row)
    ensures |w| == assoc
    ensures forall k :: 0 <= k < assoc ==> w[k] == if k < |r| then r[k] else 0
  {
    (r + Zeros(assoc))[..assoc]
  }

  lemma WithoutAt(s: seq<nat>, b: nat, k: nat)
    requires k < |Without(s, b)|
    ensures Without(s, b)[k] == if k < IndexOf(s, b) then s[k] else s[k + 1]
  {
    hide IndexOf;
  }

  lemma TouchWindow(r: seq<nat>, b: nat, assoc: nat)
    requires NoRepeats(r) && assoc > 0
    ensures Touch(Window(r, assoc), b) == Window([b] + Without(r, b), assoc)
    ensures b in Window(r, assoc) <==> (IndexOf(r, b) < |r| && IndexOf(r, b) < assoc) || (b == 0 && |r| < assoc)
  {
    hide IndexOf, Window, Touch, Without;
    var row := Window(r, assoc);
    var i, k := IndexOf(r, b), IndexOf(row, b);
    if i < |r| && i < assoc {
      assert row[i] == b && k == i;
    } else if b == 0 && |r| < assoc {
      assert row[|r|] == b && k == |r|;
    } else {
      assert k == assoc;
    }
    var w := Without(r, b);
    var after, next := Touch(row, b), Window([b] + w, assoc);
    forall t | 0 <= t < assoc
      ensures after[t] == next[t]
    {
      var front := [b] + w;
      assert next[t] == if t < |front| then front[t] else 0;
      if 0 < t < |front| {
        assert front[t] == w[t - 1];
        WithoutAt(r, b, t - 1);
      }
      TouchAt(row, b, t);
    }
    assert after == next;
  }

  /** Whatever the trace, a set that started out empty (all tags 0) holds the `assoc` most recently
      used distinct blocks in recency order, padded with zeros. */
  lemma {:induction false} SetHoldsRecent(trace: seq<nat>, assoc: nat)
    requires assoc > 0
    ensures TouchAll(Zeros(assoc), trace) == Window(Recency(trace), assoc)
  {
    if trace == [] {
      assert Zeros(assoc) == Window([], assoc);
    } else {
      var past, x := trace[..|trace| - 1], trace[|trace| - 1];
      SetHoldsRecent(past, assoc);
      RecencyHolds(past, x);
      TouchWindow(Recency(past), x, assoc);
    }
  }

  /** A reference misses exactly when the textbook says so -- unless it is the first reference to
      block 0 while the set still has an unused slot, which the zero-filled tags report as a hit. */
  lemma MissIsTextbook(trace: seq<nat>, b: nat, assoc: nat)
    requires assoc > 0
    ensures b !in TouchAll(Zeros(assoc), trace) <==>
      TextbookMiss(trace, b, assoc) && !(b == 0 && 0 !in trace && |Elems(trace)| < assoc)
  {
    SetHoldsRecent(trace, assoc);
    RecencyHolds(trace, b);
    var r := Recency(trace);
    TouchWindow(r, b, assoc);
    ElemsCount(r);
    if b in trace {
      RecencyPlace(trace, b);
    } else {
      assert b !in Elems(r);
    }
  }

  /** Referencing the most recently used block again changes nothing. */
  lemma TouchAgain(row: Row, b: nat)
    requires row != [] && row[0] == b
    ensures Touch(row, b) == row
  {
    assert IndexOf(row, b) == 0;
  }

  /** Alternating between the two most recently used blocks restores their order. */
  lemma TouchPair(row: Row, b: nat, c: nat)
    requires |row| > 1 && row[0] == c && row[1] == b && b != c
    ensures Touch(Touch(row, b), c) == row && c in Touch(row, b)
  {
    assert IndexOf(row, b) == 1;
    var swapped := Touch(row, b);
    assert swapped == [b, c] + row[2..];
    assert swapped[1] == c && IndexOf(swapped, c) == 1;
  }

  // ---------------------------------------------------------------------------
  // Inclusion: a narrower set is a prefix of a wider one

  /** Referencing a block commutes with cutting a set down to its first `assoc` ways. */
  lemma TouchPrefix(row: Row, b: nat, assoc: nat)
    requires 0 < assoc <= |row|
    ensures Touch(row[..assoc], b) == Touch(row, b)[..assoc]
    ensures b in row[..assoc] ==> b in row
  {
    hide IndexOf, Touch;
    var narrow := row[..assoc];
    var i, j := IndexOf(row, b), IndexOf(narrow, b);
    assert if i < assoc then j == i else j == assoc;
    forall k | 0 <= k < assoc
      ensures Touch(narrow, b)[k] == Touch(row, b)[k]
    {
      TouchAt(narrow, b, k);
      TouchAt(row, b, k);
    }
  }
}
