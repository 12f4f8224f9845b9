/** Timed lyric entries (the `{'time', 'content'}` dictionaries built by
    `parse_lrc_content`) and the stable sort by time that orders them. */
module Entries {
  import opened Wrappers

  /** One lyric line at one point of the timeline, in milliseconds. */
  datatype Entry = Entry(time: nat, content: string)

  /** Times never decrease along the sequence. */
  predicate SortedByTime(xs: seq<Entry>) {
    forall i, j :: 0 <= i < j < |xs| ==> xs[i].time <= xs[j].time
  }

  /** The entries stamped `t`, in their order of appearance. */
  function WithTime(xs: seq<Entry>, t: nat): (r: seq<Entry>)
    ensures |r| <= |xs|
  {
    if xs == [] then []
    else (if xs[0].time == t then [xs[0]] else []) + WithTime(xs[1..], t)
  }

  /** `r` is a stable sort of `xs` by time: sorted, and for every time the
      entries carrying it appear in `r` exactly as they do in `xs`. */
  ghost predicate IsStableSortOf(r: seq<Entry>, xs: seq<Entry>) {
    SortedByTime(r) && forall t :: WithTime(r, t) == WithTime(xs, t)
  }

  /** Place `x` in front of the first entry that is not earlier than it. */
  function Insert(x: Entry, ys: seq<Entry>): (r: seq<Entry>)
    requires SortedByTime(ys)
    ensures SortedByTime(r)
    ensures multiset(r) == multiset(ys) + multiset{x}
    ensures |r| == |ys| + 1
    ensures r[0] == x || (ys != [] && r[0] == ys[0])
  {
    if ys == [] || x.time <= ys[0].time then
      ConsSorted(x, ys);
      [x] + ys
    else
      TailSorted(ys);
      var rest := Insert(x, ys[1..]);
      ConsSorted(ys[0], rest);
      HeadTailMultiset(ys);
      ConsMultiset(ys[0], rest);
      [ys[0]] + rest
  }

  lemma TailSorted(ys: seq<Entry>)
    requires ys != [] && SortedByTime(ys)
    ensures SortedByTime(ys[1..])
  {
  }

  lemma HeadTailMultiset(ys: seq<Entry>)
    requires ys != []
    ensures multiset(ys) == multiset{ys[0]} + multiset(ys[1..])
  {
    assert ys == [ys[0]] + ys[1..];
  }

  lemma ConsMultiset(a: Entry, xs: seq<Entry>)
    ensures multiset([a] + xs) == multiset{a} + multiset(xs)
  {
  }

  /** An entry no later than the head of a sorted sequence can go in front. */
  lemma ConsSorted(a: Entry, xs: seq<Entry>)
    requires SortedByTime(xs) && (xs == [] || a.time <= xs[0].time)
    ensures SortedByTime([a] + xs)
  {
    var r := [a] + xs;
    forall i, j | 0 <= i < j < |r| ensures r[i].time <= r[j].time {
      if i == 0 && j > 1 {
        assert r[j] == xs[j - 1];
      }
    }
  }

  /** Python's `list.sort(key=time)`, which is stable; modelled as an
      insertion sort. */
  function SortByTime(xs: seq<Entry>): (r: seq<Entry>)
    ensures SortedByTime(r)
    ensures multiset(r) == multiset(xs)
    ensures |r| == |xs|
  {
    if xs == [] then []
    else
      assert xs == [xs[0]] + xs[1..];
      Insert(xs[0], SortByTime(xs[1..]))
  }

  lemma {:induction false} WithTimeAppend(a: seq<Entry>, b: seq<Entry>, t: nat)
    ensures WithTime(a + b, t) == WithTime(a, t) + WithTime(b, t)
  {
    if a != [] {
      assert (a + b)[1..] == a[1..] + b;
      WithTimeAppend(a[1..], b, t);
    } else {
      assert a + b == b;
    }
  }

  /** Inserting `x` into a sorted sequence keeps it ahead of every entry
      with the same time, so no time's entries change order. */
  lemma {:induction false} InsertIsStable(x: Entry, ys: seq<Entry>, t: nat)
    requires SortedByTime(ys)
    ensures WithTime(Insert(x, ys), t) == WithTime([x] + ys, t)
  {
    if ys != [] && x.time > ys[0].time {
      var y, tail := ys[0], ys[1..];
      assert ys == [y] + tail;
      var ins := Insert(x, tail);
      var wx, wy, wt := WithTime([x], t), WithTime([y], t), WithTime(tail, t);
      calc {
        WithTime(Insert(x, ys), t);
        WithTime([y] + ins, t);
        { WithTimeAppend([y], ins, t); }
        wy + WithTime(ins, t);
        { InsertIsStable(x, tail, t); WithTimeAppend([x], tail, t); }
        wy + (wx + wt);
        { SwapDifferentTimes(x, y, t); }
        wx + (wy + wt);
        { WithTimeAppend([y], tail, t); }
        wx + WithTime(ys, t);
        { WithTimeAppend([x], ys, t); }
        WithTime([x] + ys, t);
      }
    }
  }

  /** Two entries with different times can trade places without changing
      the entries of any one time. */
  lemma SwapDifferentTimes(x: Entry, y: Entry, t: nat)
    requires x.time != y.time
    ensures WithTime([y], t) + WithTime([x], t) == WithTime([x], t) + WithTime([y], t)
  {
    assert [x][1..] == [] && [y][1..] == [];
  }

  /** The insertion sort is a stable sort. */
  lemma {:induction false} SortByTimeIsStable(xs: seq<Entry>)
    ensures IsStableSortOf(SortByTime(xs), xs)
  {
    if xs != [] {
      SortByTimeIsStable(xs[1..]);
      forall t
        ensures WithTime(SortByTime(xs), t) == WithTime(xs, t)
      {
        SortStepIsStable(xs, t);
      }
    }
  }

  lemma SortStepIsStable(xs: seq<Entry>, t: nat)
    requires xs != [] && WithTime(SortByTime(xs[1..]), t) == WithTime(xs[1..], t)
    ensures WithTime(SortByTime(xs), t) == WithTime(xs, t)
  {
    InsertIsStable(xs[0], SortByTime(xs[1..]), t);
    WithTimeAppend([xs[0]], SortByTime(xs[1..]), t);
    WithTimeAppend([xs[0]], xs[1..], t);
    assert xs == [xs[0]] + xs[1..];
  }

  lemma {:induction false} WithTimeMembers(xs: seq<Entry>, t: nat)
    ensures forall e :: e in WithTime(xs, t) ==> e in xs && e.time == t
  {
    if xs != [] {
      WithTimeMembers(xs[1..], t);
    }
  }

  lemma {:induction false} WithTimeOfMember(xs: seq<Entry>, i: nat)
    requires i < |xs|
    ensures xs[i] in WithTime(xs, xs[i].time)
  {
    if i > 0 {
      WithTimeOfMember(xs[1..], i - 1);
    }
  }

  /** Removing the first entry of a sequence removes it from its own time
      and from no other. */
  lemma WithTimeTail(xs: seq<Entry>, t: nat)
    requires xs != []
    ensures WithTime(xs[1..], t) == if xs[0].time == t then WithTime(xs, t)[1..] else WithTime(xs, t)
  {
  }

  /** A stable sort is unique: any two stable sorts of the same entries are
      equal, so the insertion sort gives exactly what Python's sort gives. */
  lemma {:induction false} StableSortUnique(a: seq<Entry>, b: seq<Entry>)
    requires SortedByTime(a) && SortedByTime(b)
    requires forall t :: WithTime(a, t) == WithTime(b, t)
    ensures a == b
    decreases |a|
  {
    if a == [] {
      if b != [] {
        WithTimeOfMember(b, 0);
      }
    } else if b == [] {
      WithTimeOfMember(a, 0);
    } else {
      SameHead(a, b);
      forall t
        ensures WithTime(a[1..], t) == WithTime(b[1..], t)
      {
        WithTimeTail(a, t);
        WithTimeTail(b, t);
      }
      assert SortedByTime(a[1..]) && SortedByTime(b[1..]);
      StableSortUnique(a[1..], b[1..]);
      assert a == [a[0]] + a[1..];
      assert b == [b[0]] + b[1..];
    }
  }

  /** Two sorted sequences with the same entries at every time start with
      the same entry. */
  lemma SameHead(a: seq<Entry>, b: seq<Entry>)
    requires a != [] && b != [] && SortedByTime(a) && SortedByTime(b)
    requires forall t :: WithTime(a, t) == WithTime(b, t)
    ensures a[0] == b[0]
  {
    var ta, tb := a[0].time, b[0].time;
    assert ta == tb by {
      EarliestBound(a, b);
      EarliestBound(b, a);
    }
    assert WithTime(a, ta)[0] == a[0];
    assert WithTime(b, ta)[0] == b[0];
  }

  /** The head of a sorted `a` is no later than any entry of `b` that shares
      all its times with `a`, in particular than `b`'s head. */
  lemma EarliestBound(a: seq<Entry>, b: seq<Entry>)
    requires a != [] && b != [] && SortedByTime(a)
    requires forall t :: WithTime(a, t) == WithTime(b, t)
    ensures a[0].time <= b[0].time
  {
    var tb := b[0].time;
    WithTimeOfMember(b, 0);
    assert b[0] in WithTime(a, tb);
    WithTimeMembers(a, tb);
    var k :| 0 <= k < |a| && a[k] == b[0];
    if k > 0 {
      assert a[0].time <= a[k].time;
    }
  }

  /** Every stable sort of `xs` is the insertion sort's result. */
  lemma StableSortIsSortByTime(r: seq<Entry>, xs: seq<Entry>)
    requires IsStableSortOf(r, xs)
    ensures r == SortByTime(xs)
  {
    SortByTimeIsStable(xs);
    StableSortUnique(r, SortByTime(xs));
  }

  /** The content of the last entry stamped `t`, if any. */
  function LastContent(xs: seq<Entry>, t: nat): Option<string> {
    var w := WithTime(xs, t);
    if w == [] then None else Some(w[|w| - 1].content)
  }

  /** Appending an entry makes it the last one for its time and changes no
      other time. */
  lemma LastContentSnoc(xs: seq<Entry>, e: Entry, t: nat)
    ensures LastContent(xs + [e], t)
            == if e.time == t then Some(e.content) else LastContent(xs, t)
  {
    WithTimeAppend(xs, [e], t);
    assert [e][1..] == [];
  }

  /** The times that occur in `xs`. */
  function Times(xs: seq<Entry>): (r: set<nat>)
    ensures forall i :: 0 <= i < |xs| ==> xs[i].time in r
    ensures forall t :: t in r ==> exists i :: 0 <= i < |xs| && xs[i].time == t
  {
    set e | e in xs :: e.time
  }
}
