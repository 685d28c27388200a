/** Collections of messages sorted by time, merged batch by batch. */
module MessagePacks {
  import opened Text
  import opened ChatMessages

  /** The time of a message in a pack is the tick count of its `time_point`. */
  type Msg = Message<int>

  ghost predicate Sorted(s: seq<Msg>) {
    forall i, j :: 0 <= i < j < |s| ==> s[i].time <= s[j].time
  }

  /** The messages of one instant, in the order of the sequence. */
  function At(s: seq<Msg>, time: int): seq<Msg> {
    if s == [] then []
    else (if s[0].time == time then [s[0]] else []) + At(s[1..], time)
  }

  lemma {:induction false} AtAppend(a: seq<Msg>, b: seq<Msg>, time: int)
    ensures At(a + b, time) == At(a, time) + At(b, time)
  {
    if a == [] {
      assert a + b == b;
    } else {
      assert (a + b)[1..] == a[1..] + b;
      AtAppend(a[1..], b, time);
      Associates(if a[0].time == time then [a[0]] else [], At(a[1..], time), At(b, time));
    }
  }

  lemma {:induction false} AtAbsent(s: seq<Msg>, time: int)
    requires forall i :: 0 <= i < |s| ==> s[i].time != time
    ensures At(s, time) == []
  {
    if s != [] {
      AtAbsent(s[1..], time);
    }
  }

  lemma {:induction false} AtPresent(s: seq<Msg>, i: nat)
    requires i < |s|
    ensures At(s, s[i].time) != []
  {
    if i > 0 {
      assert s[1..][i - 1] == s[i];
      AtPresent(s[1..], i - 1);
    }
  }

  lemma AtTail(s: seq<Msg>, time: int)
    requires s != []
    ensures At(s[1..], time) == if s[0].time == time then At(s, time)[1..] else At(s, time)
  {
  }

  /** A sorted sequence is determined by the order within each instant. */
  lemma {:induction false} SortedIsDetermined(a: seq<Msg>, b: seq<Msg>)
    requires Sorted(a) && Sorted(b)
    requires forall time :: At(a, time) == At(b, time)
    ensures a == b
  {
    if a != [] {
      AtPresent(a, 0);
    }
    if b != [] {
      AtPresent(b, 0);
    }
    if a != [] && b != [] {
      SameHead(a, b);
      forall time ensures At(a[1..], time) == At(b[1..], time) {
        AtTail(a, time);
        AtTail(b, time);
      }
      SortedIsDetermined(a[1..], b[1..]);
      assert a == [a[0]] + a[1..] && b == [b[0]] + b[1..];
    }
  }

  lemma SameHead(a: seq<Msg>, b: seq<Msg>)
    requires Sorted(a) && Sorted(b) && a != [] && b != []
    requires forall time :: At(a, time) == At(b, time)
    ensures a[0] == b[0]
  {
    AtPresent(a, 0);
    AtPresent(b, 0);
    FirstTime(a, b);
    FirstTime(b, a);
    assert At(a, a[0].time)[0] == a[0] && At(b, b[0].time)[0] == b[0];
  }

  lemma FirstTime(a: seq<Msg>, b: seq<Msg>)
    requires a != [] && b != [] && Sorted(b)
    requires At(b, a[0].time) != []
    ensures b[0].time <= a[0].time
  {
    NothingBefore(b, a[0].time);
  }

  lemma NothingBefore(s: seq<Msg>, time: int)
    requires s != [] && Sorted(s)
    ensures time < s[0].time ==> At(s, time) == []
  {
    if time < s[0].time {
      AtAbsent(s, time);
    }
  }

  // ----- merging

  /** The stable merge: of equal times the first sequence goes first. */
  function Merge(a: seq<Msg>, b: seq<Msg>): seq<Msg>
    decreases |a| + |b|
  {
    if a == [] then b
    else if b == [] then a
    else if b[0].time < a[0].time then [b[0]] + Merge(a, b[1..])
    else [a[0]] + Merge(a[1..], b)
  }

  lemma {:induction false} MergeContents(a: seq<Msg>, b: seq<Msg>)
    ensures multiset(Merge(a, b)) == multiset(a) + multiset(b)
    decreases |a| + |b|
  {
    if a != [] && b != [] {
      if b[0].time < a[0].time {
        MergeContents(a, b[1..]);
        FirstAndRest(b);
        assert multiset(Merge(a, b)) == multiset{b[0]} + multiset(Merge(a, b[1..]));
      } else {
        MergeContents(a[1..], b);
        FirstAndRest(a);
        assert multiset(Merge(a, b)) == multiset{a[0]} + multiset(Merge(a[1..], b));
      }
    }
  }

  lemma FirstAndRest(s: seq<Msg>)
    requires s != []
    ensures multiset(s) == multiset{s[0]} + multiset(s[1..])
  {
    assert s == [s[0]] + s[1..];
  }

  lemma SortedCons(m: Msg, s: seq<Msg>)
    requires Sorted(s)
    requires forall x :: x in multiset(s) ==> m.time <= x.time
    ensures Sorted([m] + s)
  {
  }

  lemma MergeAbove(m: Msg, a: seq<Msg>, b: seq<Msg>)
    requires forall i :: 0 <= i < |a| ==> m.time <= a[i].time
    requires forall i :: 0 <= i < |b| ==> m.time <= b[i].time
    ensures forall x :: x in multiset(Merge(a, b)) ==> m.time <= x.time
  {
    MergeContents(a, b);
    forall x | x in multiset(Merge(a, b)) ensures m.time <= x.time {
      assert x in a || x in b;
    }
  }

  lemma {:induction false} MergeSorted(a: seq<Msg>, b: seq<Msg>)
    requires Sorted(a) && Sorted(b)
    ensures Sorted(Merge(a, b))
    decreases |a| + |b|
  {
    if a != [] && b != [] {
      if b[0].time < a[0].time {
        MergeSorted(a, b[1..]);
        MergeAbove(b[0], a, b[1..]);
        SortedCons(b[0], Merge(a, b[1..]));
      } else {
        MergeSorted(a[1..], b);
        MergeAbove(a[0], a[1..], b);
        SortedCons(a[0], Merge(a[1..], b));
      }
    }
  }

  lemma {:induction false} MergeStable(a: seq<Msg>, b: seq<Msg>, time: int)
    requires Sorted(a) && Sorted(b)
    ensures At(Merge(a, b), time) == At(a, time) + At(b, time)
    decreases |a| + |b|
  {
    if a == [] || b == [] {
    } else if b[0].time < a[0].time {
      MergeStable(a, b[1..], time);
      assert Merge(a, b)[1..] == Merge(a, b[1..]);
      if b[0].time == time {
        AtAbsent(a, time);
      }
    } else {
      MergeStable(a[1..], b, time);
      assert Merge(a, b)[1..] == Merge(a[1..], b);
    }
  }

  /** The stable merge is the only sorted sequence that keeps both orders, the first sequence leading. */
  lemma MergeUnique(a: seq<Msg>, b: seq<Msg>, r: seq<Msg>)
    requires Sorted(a) && Sorted(b) && Sorted(r)
    requires forall time :: At(r, time) == At(a, time) + At(b, time)
    ensures r == Merge(a, b)
  {
    MergeSorted(a, b);
    forall time ensures At(r, time) == At(Merge(a, b), time) {
      MergeStable(a, b, time);
    }
    SortedIsDetermined(r, Merge(a, b));
  }

  // ----- inserting a batch

  /** The one case in which the new messages go before old ones of the same time. */
  predicate PrependTie(a: seq<Msg>, b: seq<Msg>) {
    && a != [] && |b| > 1
    && b[|b| - 1].time == a[0].time
    && b[0].time < a[|a| - 1].time
  }

  /** What `Insert` leaves: the stable merge, except for a prepended batch that ties at the boundary. */
  function Inserted(a: seq<Msg>, b: seq<Msg>): seq<Msg> {
    if PrependTie(a, b) then b + a else Merge(a, b)
  }

  lemma ConcatIsMerge(a: seq<Msg>, b: seq<Msg>)
    requires Sorted(a) && Sorted(b)
    requires a != [] && b != [] ==> a[|a| - 1].time <= b[0].time
    ensures Merge(a, b) == a + b
  {
    forall time ensures At(a + b, time) == At(a, time) + At(b, time) {
      AtAppend(a, b, time);
    }
    SortedAppend(a, b);
    MergeUnique(a, b, a + b);
  }

  lemma PrependIsMerge(a: seq<Msg>, b: seq<Msg>)
    requires Sorted(a) && Sorted(b)
    requires forall i, j :: 0 <= i < |a| && 0 <= j < |b| ==> b[j].time < a[i].time
    ensures Merge(a, b) == b + a
  {
    forall time ensures At(b + a, time) == At(a, time) + At(b, time) {
      OneSideOnly(a, b, time);
      AtCommuted(a, b, time);
    }
    MergeUnique(a, b, b + a);
  }

  lemma OneSideOnly(a: seq<Msg>, b: seq<Msg>, time: int)
    requires forall i, j :: 0 <= i < |a| && 0 <= j < |b| ==> b[j].time < a[i].time
    ensures At(a, time) + At(b, time) == At(b, time) + At(a, time)
  {
    if i :| 0 <= i < |a| && a[i].time == time {
      AtAbsent(b, time);
    } else {
      AtAbsent(a, time);
    }
  }

  lemma SplitInsertIsMerge(a: seq<Msg>, m: Msg, i: nat)
    requires Sorted(a) && i <= |a|
    requires forall k :: 0 <= k < i ==> a[k].time <= m.time
    requires i < |a| ==> m.time < a[i].time
    ensures Merge(a, [m]) == a[..i] + [m] + a[i..]
  {
    LaterTimes(a, m, i);
    EarlierTimes(a, m, i);
    Halves(a, i);
    MiddleIsMerge(a[..i], m, a[i..]);
  }

  lemma Halves(a: seq<Msg>, i: nat)
    requires i <= |a|
    ensures a[..i] + a[i..] == a
  {
  }

  lemma EarlierTimes(a: seq<Msg>, m: Msg, i: nat)
    requires i <= |a| && forall k :: 0 <= k < i ==> a[k].time <= m.time
    ensures forall k :: 0 <= k < |a[..i]| ==> a[..i][k].time <= m.time
  {
  }

  lemma LaterTimes(a: seq<Msg>, m: Msg, i: nat)
    requires Sorted(a) && i <= |a|
    requires i < |a| ==> m.time < a[i].time
    ensures forall k :: 0 <= k < |a[i..]| ==> m.time < a[i..][k].time
  {
  }

  lemma MiddleIsMerge(front: seq<Msg>, m: Msg, back: seq<Msg>)
    requires Sorted(front + back)
    requires forall k :: 0 <= k < |front| ==> front[k].time <= m.time
    requires forall k :: 0 <= k < |back| ==> m.time < back[k].time
    ensures Merge(front + back, [m]) == front + [m] + back
  {
    forall time ensures At(front + [m] + back, time) == At(front + back, time) + At([m], time) {
      if m.time == time {
        AtAbsent(back, time);
      } else {
        AtAbsent([m], time);
      }
      AtMiddle(front, [m], back, time);
    }
    MiddleSorted(front, m, back);
    MergeUnique(front + back, [m], front + [m] + back);
  }

  lemma MiddleSorted(front: seq<Msg>, m: Msg, back: seq<Msg>)
    requires Sorted(front + back)
    requires forall k :: 0 <= k < |front| ==> front[k].time <= m.time
    requires forall k :: 0 <= k < |back| ==> m.time < back[k].time
    ensures Sorted(front + [m] + back)
  {
    var all, before := front + [m] + back, front + back;
    forall i, j | 0 <= i < j < |all| ensures all[i].time <= all[j].time {
      assert i < |front| ==> all[i] == before[i];
      assert j < |front| ==> all[j] == before[j];
      assert i > |front| ==> all[i] == before[i - 1];
      assert j > |front| ==> all[j] == before[j - 1];
    }
  }

  lemma AtMiddle(front: seq<Msg>, middle: seq<Msg>, back: seq<Msg>, time: int)
    requires At(middle, time) == [] || At(back, time) == []
    ensures At(front + middle + back, time) == At(front + back, time) + At(middle, time)
  {
    AtInsert(front, middle, back, time);
    AtAppend(front, back, time);
  }

  lemma AtInsert(front: seq<Msg>, middle: seq<Msg>, back: seq<Msg>, time: int)
    ensures At(front + middle + back, time) == At(front, time) + At(middle, time) + At(back, time)
  {
    AtAppend(front + middle, back, time);
    AtAppend(front, middle, time);
  }

  /** `std::merge` of two ranges into a new vector. */
  method MergeInto(a: seq<Msg>, b: seq<Msg>) returns (merged: seq<Msg>)
    ensures merged == Merge(a, b)
  {
    merged := [];
    var i, j := 0, 0;
    while i < |a| && j < |b|
      invariant 0 <= i <= |a| && 0 <= j <= |b|
      invariant merged + Merge(a[i..], b[j..]) == Merge(a, b)
      decreases |a| - i + |b| - j
    {
      MergeStep(merged, a, b, i, j);
      if b[j].time < a[i].time {
        merged := merged + [b[j]];
        j := j + 1;
      } else {
        merged := merged + [a[i]];
        i := i + 1;
      }
    }
    MergeRest(a[i..], b[j..]);
    merged := merged + (a[i..] + b[j..]);
  }

  lemma MergeStep(merged: seq<Msg>, a: seq<Msg>, b: seq<Msg>, i: nat, j: nat)
    requires i < |a| && j < |b|
    ensures merged + Merge(a[i..], b[j..])
            == if b[j].time < a[i].time then (merged + [b[j]]) + Merge(a[i..], b[j + 1..])
               else (merged + [a[i]]) + Merge(a[i + 1..], b[j..])
  {
    assert b[j..][1..] == b[j + 1..] && a[i..][1..] == a[i + 1..];
  }

  lemma MergeRest(a: seq<Msg>, b: seq<Msg>)
    requires a == [] || b == []
    ensures Merge(a, b) == a + b
  {
  }

  method SortByTime(messages: seq<Msg>) returns (sorted: seq<Msg>)
    ensures Sorted(sorted) && multiset(sorted) == multiset(messages)
  {
    sorted := [];
    for n := 0 to |messages|
      invariant Sorted(sorted)
      invariant multiset(sorted) == multiset(messages[..n])
    {
      OneMoreSorted(messages, n, sorted);
      sorted := MergeInto(sorted, [messages[n]]);
    }
    assert messages[..|messages|] == messages;
  }

  lemma OneMoreSorted(messages: seq<Msg>, n: nat, sorted: seq<Msg>)
    requires n < |messages| && Sorted(sorted) && multiset(sorted) == multiset(messages[..n])
    ensures var more := Merge(sorted, [messages[n]]);
      Sorted(more) && multiset(more) == multiset(messages[..n + 1])
  {
    MergeSorted(sorted, [messages[n]]);
    MergeContents(sorted, [messages[n]]);
    assert messages[..n + 1] == messages[..n] + [messages[n]];
  }

  class MessagePack {
    var data: seq<Msg>

    ghost predicate Valid()
      reads this
    {
      Sorted(data)
    }

    /** `std::sort` promises a sorted permutation and no more. */
    constructor (messages: seq<Msg>)
      ensures Valid() && multiset(data) == multiset(messages)
    {
      var sorted := SortByTime(messages);
      data := sorted;
    }

    /** The five paths of `Insert`. The C++ argument is a copy: a pack may be inserted into itself. */
    method Insert(batch: MessagePack)
      requires Valid() && batch.Valid()
      modifies this
      ensures Valid()
      ensures data == Inserted(old(data), old(batch.data))
      ensures old(data) == [] ==> data == old(batch.data)
      ensures old(batch.data) == [] ==> data == old(data)
      ensures Follows(old(data), old(batch.data)) ==> data == old(data) + old(batch.data)
      ensures Precedes(old(data), old(batch.data)) ==> data == old(batch.data) + old(data)
    {
      var newMsgs := batch.data;
      InsertedSorted(data, newMsgs);
      InsertedPaths(data, newMsgs);
      if |newMsgs| == 0 {
        return;
      }
      if |data| == 0 {
        data := newMsgs;
        return;
      }
      if |newMsgs| == 1 {
        var newMsg := newMsgs[0];
        var next := 0;
        while next < |data| && !(newMsg.time < data[next].time)
          invariant 0 <= next <= |data| && data == old(data)
          invariant forall k :: 0 <= k < next ==> data[k].time <= newMsg.time
        {
          next := next + 1;
        }
        SplitInsertIsMerge(data, newMsg, next);
        assert newMsgs == [newMsg];
        data := data[..next] + [newMsg] + data[next..];
      } else {
        var beginTime, endTime := data[0].time, data[|data| - 1].time;
        var newBegin, newEnd := newMsgs[0].time, newMsgs[|newMsgs| - 1].time;
        if newBegin >= endTime {
          ConcatIsMerge(data, newMsgs);
          data := data + newMsgs;
        } else if newEnd <= beginTime {
          if newEnd < beginTime {
            PrependIsMerge(data, newMsgs);
          }
          data := newMsgs + data;
        } else {
          data := MergeInto(data, newMsgs);
        }
      }
    }

    /** An index out of range changes nothing and yields a default message. */
    method Delete(index: int) returns (res: Msg)
      requires data == [] ==> index < 0
      modifies this
      ensures if 0 <= index < |old(data)|
              then res == old(data)[index] && data == old(data)[..index] + old(data)[index + 1..]
              else res == Message("", "", 0) && data == old(data)
      ensures old(Valid()) ==> Valid()
    {
      if index < 0 || index > |data| - 1 {
        return Message("", "", 0);
      }
      res := data[index];
      data := data[..index] + data[index + 1..];
    }
  }

  // ----- what insertion means

  /** No message of the batch is earlier than one of the pack. */
  predicate Follows(a: seq<Msg>, b: seq<Msg>) {
    a != [] && b != [] && a[|a| - 1].time <= b[0].time
  }

  /** A batch of several, no message of which is later than one of the pack, and which does not follow it. */
  predicate Precedes(a: seq<Msg>, b: seq<Msg>) {
    a != [] && |b| > 1 && b[|b| - 1].time <= a[0].time && !(a[|a| - 1].time <= b[0].time)
  }

  /** Every path by the times at the ends: append, put in front, or the stable merge. */
  lemma InsertedPaths(a: seq<Msg>, b: seq<Msg>)
    requires Sorted(a) && Sorted(b)
    ensures a == [] ==> Inserted(a, b) == b
    ensures b == [] ==> Inserted(a, b) == a
    ensures Follows(a, b) ==> Inserted(a, b) == a + b
    ensures Precedes(a, b) ==> Inserted(a, b) == b + a
    ensures !Follows(a, b) && !Precedes(a, b) ==> Inserted(a, b) == Merge(a, b)
  {
    if Follows(a, b) {
      ConcatIsMerge(a, b);
    } else if Precedes(a, b) && b[|b| - 1].time < a[0].time {
      PrependIsMerge(a, b);
    }
  }

  /** Insertion keeps the pack sorted, loses and invents nothing, and keeps the order of each input. */
  lemma InsertedSorted(a: seq<Msg>, b: seq<Msg>)
    requires Sorted(a) && Sorted(b)
    ensures Sorted(Inserted(a, b))
    ensures multiset(Inserted(a, b)) == multiset(a) + multiset(b)
    ensures forall time :: At(Inserted(a, b), time) == At(a, time) + At(b, time)
                           || At(Inserted(a, b), time) == At(b, time) + At(a, time)
  {
    if PrependTie(a, b) {
      forall time ensures At(b + a, time) == At(b, time) + At(a, time) {
        AtAppend(b, a, time);
      }
    } else {
      MergeSorted(a, b);
      MergeContents(a, b);
      forall time ensures At(Merge(a, b), time) == At(a, time) + At(b, time) {
        MergeStable(a, b, time);
      }
    }
  }

  /** Insertion is the stable merge exactly when no prepended batch ties, or the tied messages commute. */
  lemma InsertedIsMergeIff(a: seq<Msg>, b: seq<Msg>)
    requires Sorted(a) && Sorted(b)
    ensures Inserted(a, b) == Merge(a, b) <==>
            !PrependTie(a, b)
            || At(a, a[0].time) + At(b, a[0].time) == At(b, a[0].time) + At(a, a[0].time)
  {
    if PrependTie(a, b) {
      AtAppend(b, a, a[0].time);
      MergeStable(a, b, a[0].time);
      if At(a, a[0].time) + At(b, a[0].time) == At(b, a[0].time) + At(a, a[0].time) {
        CommutingTie(a, b);
      }
    }
  }

  lemma CommutingTie(a: seq<Msg>, b: seq<Msg>)
    requires Sorted(a) && Sorted(b) && a != [] && b != []
    requires b[|b| - 1].time == a[0].time
    requires At(a, a[0].time) + At(b, a[0].time) == At(b, a[0].time) + At(a, a[0].time)
    ensures Merge(a, b) == b + a
  {
    forall time ensures At(b + a, time) == At(a, time) + At(b, time) {
      if time != a[0].time {
        OneSideAbsent(a, b, time);
      }
      AtCommuted(a, b, time);
    }
    SortedAppend(b, a);
    MergeUnique(a, b, b + a);
  }

  lemma AtCommuted(a: seq<Msg>, b: seq<Msg>, time: int)
    requires At(a, time) + At(b, time) == At(b, time) + At(a, time)
    ensures At(b + a, time) == At(a, time) + At(b, time)
  {
    AtAppend(b, a, time);
  }

  lemma OneSideAbsent(a: seq<Msg>, b: seq<Msg>, time: int)
    requires Sorted(a) && Sorted(b) && a != [] && b != []
    requires b[|b| - 1].time <= a[0].time && time != a[0].time
    ensures At(a, time) + At(b, time) == At(b, time) + At(a, time)
  {
    if time < a[0].time {
      AtAbsent(a, time);
    } else {
      AtAbsent(b, time);
    }
  }

  lemma SortedAppend(a: seq<Msg>, b: seq<Msg>)
    requires Sorted(a) && Sorted(b)
    requires a != [] && b != [] ==> a[|a| - 1].time <= b[0].time
    ensures Sorted(a + b)
  {
  }

  /** Two messages of one instant whose prepended batch comes out before the older message. */
  lemma PrependTieReorders()
    ensures var oldMsg, x, y, z :=
              Message("a", "old", 5), Message("b", "x", 1), Message("b", "y", 5), Message("c", "z", 9);
            && Sorted([oldMsg, z]) && Sorted([x, y])
            && Inserted([oldMsg, z], [x, y]) == [x, y, oldMsg, z]
            && Merge([oldMsg, z], [x, y]) == [x, oldMsg, y, z]
  {
    var oldMsg, x, y, z: Msg :=
      Message("a", "old", 5), Message("b", "x", 1), Message("b", "y", 5), Message("c", "z", 9);
    var a, b := [oldMsg, z], [x, y];
    assert a[1..] == [z] && b[1..] == [y] && [y][1..] == [];
    assert Merge([z], [y]) == [y] + Merge([z], []);
    assert Merge(a, [y]) == [oldMsg] + Merge([z], [y]);
    assert Merge(a, b) == [x] + Merge(a, [y]);
  }

  // ----- arrival by single messages

  function InsertEach(arrivals: seq<Msg>): seq<Msg> {
    if arrivals == [] then []
    else Inserted(InsertEach(arrivals[..|arrivals| - 1]), [arrivals[|arrivals| - 1]])
  }

  /** Messages inserted one by one end up in the stable sort of their arrival order. */
  lemma {:induction false} ArrivalOrderStable(arrivals: seq<Msg>)
    ensures Sorted(InsertEach(arrivals))
    ensures multiset(InsertEach(arrivals)) == multiset(arrivals)
    ensures forall time :: At(InsertEach(arrivals), time) == At(arrivals, time)
  {
    if arrivals != [] {
      var front, last := arrivals[..|arrivals| - 1], arrivals[|arrivals| - 1];
      ArrivalOrderStable(front);
      assert arrivals == front + [last];
      InsertedSorted(InsertEach(front), [last]);
      forall time ensures At(InsertEach(arrivals), time) == At(arrivals, time) {
        MergeStable(InsertEach(front), [last], time);
        AtAppend(front, [last], time);
      }
    }
  }

  // ----- arrival by batches

  function InsertBatches(batches: seq<seq<Msg>>): seq<Msg> {
    if batches == [] then []
    else Inserted(InsertBatches(batches[..|batches| - 1]), batches[|batches| - 1])
  }

  function Contents(batches: seq<seq<Msg>>): multiset<Msg> {
    if batches == [] then multiset{}
    else Contents(batches[..|batches| - 1]) + multiset(batches[|batches| - 1])
  }

  lemma {:induction false} BatchesSorted(batches: seq<seq<Msg>>)
    requires forall i :: 0 <= i < |batches| ==> Sorted(batches[i])
    ensures Sorted(InsertBatches(batches))
    ensures multiset(InsertBatches(batches)) == Contents(batches)
  {
    if batches != [] {
      BatchesSorted(batches[..|batches| - 1]);
      InsertedSorted(InsertBatches(batches[..|batches| - 1]), batches[|batches| - 1]);
    }
  }

  /** Two sorted sequences of the same messages show the same times at every position. */
  lemma {:induction false} SameTimes(a: seq<Msg>, b: seq<Msg>)
    requires Sorted(a) && Sorted(b) && multiset(a) == multiset(b)
    ensures |a| == |b| && forall i :: 0 <= i < |a| ==> a[i].time == b[i].time
  {
    assert |multiset(a)| == |a| && |multiset(b)| == |b|;
    if a != [] {
      EarliestTime(a, b);
      EarliestTime(b, a);
      var k := FindMsg(b, a[0]);
      SameRest(a, b, k);
      TimesWithout(b, k, a[0].time);
      SameTimes(a[1..], b[..k] + b[k + 1..]);
      ShiftedTimes(a, b, b[..k] + b[k + 1..]);
    }
  }

  lemma ShiftedTimes(a: seq<Msg>, b: seq<Msg>, rest: seq<Msg>)
    requires a != [] && |a| == |b| == |rest| + 1 && a[0].time == b[0].time
    requires forall i :: 0 <= i < |rest| ==> a[1..][i].time == rest[i].time
    requires forall i :: 0 < i < |b| ==> b[i].time == rest[i - 1].time
    ensures forall i :: 0 <= i < |a| ==> a[i].time == b[i].time
  {
  }

  lemma EarliestTime(a: seq<Msg>, b: seq<Msg>)
    requires Sorted(b) && a != [] && b != []
    requires a[0] in multiset(b)
    ensures b[0].time <= a[0].time
  {
  }

  lemma SameRest(a: seq<Msg>, b: seq<Msg>, k: nat)
    requires a != [] && k < |b| && b[k] == a[0] && multiset(a) == multiset(b)
    ensures multiset(a[1..]) == multiset(b[..k] + b[k + 1..])
  {
    FirstAndRest(a);
    RestContents(b, k);
    assert multiset(a[1..]) == multiset(a) - multiset{a[0]};
  }

  lemma RestContents(s: seq<Msg>, k: nat)
    requires k < |s|
    ensures multiset(s[..k] + s[k + 1..]) == multiset(s) - multiset{s[k]}
  {
    assert s == s[..k] + [s[k]] + s[k + 1..];
  }

  /** Removing one of the earliest messages shifts the times by one place. */
  lemma TimesWithout(b: seq<Msg>, k: nat, time: int)
    requires Sorted(b) && k < |b| && b[0].time == b[k].time == time
    ensures var rest := b[..k] + b[k + 1..];
      Sorted(rest) && forall i :: 0 < i < |b| ==> b[i].time == rest[i - 1].time
  {
  }

  lemma FindMsg(s: seq<Msg>, m: Msg) returns (k: nat)
    requires m in multiset(s)
    ensures k < |s| && s[k] == m
  {
    k :| k < |s| && s[k] == m;
  }

  /**
   * However the same messages are split into sorted batches, and in whatever order these arrive, the
   * pack shows the same times; and it is the same pack when no two different messages share a time.
   */
  lemma BatchingIndependent(x: seq<seq<Msg>>, y: seq<seq<Msg>>)
    requires forall i :: 0 <= i < |x| ==> Sorted(x[i])
    requires forall i :: 0 <= i < |y| ==> Sorted(y[i])
    requires Contents(x) == Contents(y)
    ensures |InsertBatches(x)| == |InsertBatches(y)|
    ensures forall i :: 0 <= i < |InsertBatches(x)| ==> InsertBatches(x)[i].time == InsertBatches(y)[i].time
    ensures (forall m, n :: m in Contents(x) && n in Contents(x) && m.time == n.time ==> m == n)
            ==> InsertBatches(x) == InsertBatches(y)
  {
    BatchesSorted(x);
    BatchesSorted(y);
    SameTimes(InsertBatches(x), InsertBatches(y));
    if forall m, n :: m in Contents(x) && n in Contents(x) && m.time == n.time ==> m == n {
      SameMessages(InsertBatches(x), InsertBatches(y), Contents(x));
    }
  }

  lemma SameMessages(a: seq<Msg>, b: seq<Msg>, all: multiset<Msg>)
    requires |a| == |b| && forall i :: 0 <= i < |a| ==> a[i].time == b[i].time
    requires multiset(a) == all && multiset(b) == all
    requires forall m, n :: m in all && n in all && m.time == n.time ==> m == n
    ensures a == b
  {
  }
}
