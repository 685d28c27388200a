/** `std::map<std::string, std::string>` as its iteration sequence, strictly sorted by key. */
module Tables {
  import opened Wrappers

  datatype Entry = Entry(key: string, value: string)

  // ----- the order of std::less<std::string>

  predicate Less(a: string, b: string) {
    if b == "" then false
    else if a == "" then true
    else if a[0] != b[0] then a[0] < b[0]
    else Less(a[1..], b[1..])
  }

  lemma {:induction false} LessIrreflexive(a: string)
    ensures !Less(a, a)
  {
    if a != "" {
      LessIrreflexive(a[1..]);
    }
  }

  lemma {:induction false} LessTotal(a: string, b: string)
    ensures Less(a, b) || a == b || Less(b, a)
    ensures !(Less(a, b) && Less(b, a))
  {
    if a != "" && b != "" && a[0] == b[0] {
      LessTotal(a[1..], b[1..]);
      assert a == [a[0]] + a[1..] && b == [b[0]] + b[1..];
    }
  }

  lemma {:induction false} LessTransitive(a: string, b: string, c: string)
    requires Less(a, b) && Less(b, c)
    ensures Less(a, c)
  {
    if a != "" && a[0] == b[0] == c[0] {
      LessTransitive(a[1..], b[1..], c[1..]);
    }
  }

  /** The texts agree before place `n`, and there the first ends or has the smaller character. */
  predicate FirstDifference(a: string, b: string, n: nat) {
    && n <= |a| && n < |b| && a[..n] == b[..n]
    && (n == |a| || a[n] < b[n])
  }

  /** The order is that of a dictionary: a proper prefix comes first, else the first difference decides. */
  lemma {:induction false} LessIff(a: string, b: string)
    ensures Less(a, b) <==> exists n: nat :: FirstDifference(a, b, n)
  {
    if a == "" || b == "" || a[0] != b[0] {
      if Less(a, b) {
        assert FirstDifference(a, b, 0);
      }
      if n: nat :| FirstDifference(a, b, n) {
        DifferenceLater(a, b, n);
      }
    } else {
      LessIff(a[1..], b[1..]);
      if n: nat :| FirstDifference(a[1..], b[1..], n) {
        OneCharFurther(a, b, n);
      }
      if n: nat :| FirstDifference(a, b, n) {
        SameStart(a, b, n);
        OneCharFurther(a, b, n - 1);
      }
    }
  }

  lemma SameStart(a: string, b: string, n: nat)
    requires FirstDifference(a, b, n) && a != "" && b != "" && a[0] == b[0]
    ensures n > 0
  {
  }

  lemma DifferenceLater(a: string, b: string, n: nat)
    requires FirstDifference(a, b, n)
    ensures n > 0 ==> a != "" && b != "" && a[0] == b[0]
  {
    if n > 0 {
      assert a[..n][0] == a[0] && b[..n][0] == b[0];
    }
  }

  lemma OneCharFurther(a: string, b: string, n: nat)
    requires a != "" && b != "" && a[0] == b[0]
    ensures FirstDifference(a[1..], b[1..], n) <==> FirstDifference(a, b, n + 1)
  {
    if n < |a| && n + 1 < |b| {
      assert a[..n + 1] == [a[0]] + a[1..][..n] && b[..n + 1] == [b[0]] + b[1..][..n];
      assert a[..n + 1][1..] == a[1..][..n] && b[..n + 1][1..] == b[1..][..n];
    }
  }

  // ----- ordered tables

  ghost predicate Ordered(m: seq<Entry>) {
    forall i, j :: 0 <= i < j < |m| ==> Less(m[i].key, m[j].key)
  }

  type Table = m: seq<Entry> | Ordered(m) witness []

  ghost predicate Has(m: seq<Entry>, k: string) {
    exists i :: 0 <= i < |m| && m[i].key == k
  }

  /** `std::map::at`, with `None` where it throws `std::out_of_range`. */
  function Get(m: seq<Entry>, k: string): Option<string> {
    if m == [] then None
    else if m[0].key == k then Some(m[0].value)
    else Get(m[1..], k)
  }

  /** `operator[]` assignment: replaces the value of a present key, inserts an absent one. */
  function Put(m: seq<Entry>, k: string, v: string): seq<Entry> {
    if m == [] then [Entry(k, v)]
    else if m[0].key == k then [Entry(k, v)] + m[1..]
    else if Less(k, m[0].key) then [Entry(k, v)] + m
    else [m[0]] + Put(m[1..], k, v)
  }

  lemma {:induction false} GetAt(m: Table, i: nat)
    requires i < |m|
    ensures Get(m, m[i].key) == Some(m[i].value)
  {
    if i > 0 {
      LessIrreflexive(m[i].key);
      assert m[1..][i - 1] == m[i];
      GetAt(m[1..], i - 1);
    }
  }

  lemma {:induction false} GetFinds(m: seq<Entry>, k: string)
    ensures Get(m, k).Some? <==> Has(m, k)
    ensures Get(m, k).Some? ==> Entry(k, Get(m, k).value) in m
  {
    if m != [] && m[0].key != k {
      GetFinds(m[1..], k);
      assert forall i :: 0 < i < |m| ==> m[i] == m[1..][i - 1];
      assert forall i :: 0 <= i < |m| - 1 ==> m[1..][i] == m[i + 1];
    }
  }

  /** The keys of an updated table are the old ones and the new one, and its entries likewise. */
  lemma {:induction false} PutEntries(m: seq<Entry>, k: string, v: string)
    ensures Entry(k, v) in Put(m, k, v)
    ensures forall e :: e in Put(m, k, v) ==> e in m || e == Entry(k, v)
    ensures forall e :: e in m && e.key != k ==> e in Put(m, k, v)
  {
    if m != [] && m[0].key != k && !Less(k, m[0].key) {
      PutEntries(m[1..], k, v);
    }
  }

  lemma {:induction false} PutOrdered(m: Table, k: string, v: string)
    ensures Ordered(Put(m, k, v))
  {
    if m != [] {
      var head, tail: Table := m[0], m[1..];
      if head.key == k {
      } else if Less(k, head.key) {
        forall i | 0 <= i < |m| ensures Less(k, m[i].key) {
          if i > 0 { LessTransitive(k, head.key, m[i].key); }
        }
      } else {
        LessTotal(k, head.key);
        PutOrdered(tail, k, v);
        PutEntries(tail, k, v);
        var rest := Put(tail, k, v);
        forall j | 0 <= j < |rest| ensures Less(head.key, rest[j].key) {
          assert rest[j] in rest;
          if rest[j] in tail {
            var i :| 0 <= i < |tail| && tail[i] == rest[j];
            assert m[i + 1] == rest[j];
          }
        }
      }
    }
  }

  /** The update of an ordered table, again ordered. */
  function Set(m: Table, k: string, v: string): (r: Table)
    ensures Entry(k, v) in r
  {
    PutOrdered(m, k, v);
    PutEntries(m, k, v);
    Put(m, k, v)
  }

  /** A table behaves as a map: an update changes one key. */
  lemma {:induction false} GetSet(m: Table, k: string, v: string, other: string)
    ensures Get(Set(m, k, v), other) == if other == k then Some(v) else Get(m, other)
  {
    if m != [] && m[0].key != k && !Less(k, m[0].key) {
      GetSet(m[1..], k, v, other);
      assert Put(m, k, v)[1..] == Put(m[1..], k, v);
    }
  }

  /** Two tables that answer every lookup alike are the same sequence, so iterate alike. */
  lemma {:induction false} SameLookups(a: Table, b: Table)
    requires forall k :: Get(a, k) == Get(b, k)
    ensures a == b
  {
    if a == [] || b == [] {
      if a != [] { GetAt(a, 0); }
      if b != [] { GetAt(b, 0); }
    } else {
      SameFirst(a, b);
      GetAt(a, 0);
      GetAt(b, 0);
      var x: Table, y: Table := a[1..], b[1..];
      forall k ensures Get(x, k) == Get(y, k) {
        if k == a[0].key {
          FirstAbsent(a);
          FirstAbsent(b);
        } else {
          assert Get(a, k) == Get(x, k) && Get(b, k) == Get(y, k);
        }
      }
      SameLookups(x, y);
      assert a == [a[0]] + x && b == [b[0]] + y;
    }
  }

  lemma FirstAbsent(m: Table)
    requires m != []
    ensures Get(m[1..], m[0].key) == None
  {
    GetFinds(m[1..], m[0].key);
    LessIrreflexive(m[0].key);
    assert forall i :: 0 <= i < |m| - 1 ==> m[1..][i] == m[i + 1];
  }

  lemma SameFirst(a: Table, b: Table)
    requires a != [] && b != []
    requires forall k :: Get(a, k) == Get(b, k)
    ensures a[0].key == b[0].key
  {
    GetAt(a, 0);
    GetAt(b, 0);
    GetFinds(b, a[0].key);
    GetFinds(a, b[0].key);
    var i :| 0 <= i < |b| && b[i].key == a[0].key;
    var j :| 0 <= j < |a| && a[j].key == b[0].key;
    LessTotal(a[0].key, b[0].key);
    assert i > 0 ==> Less(b[0].key, b[i].key);
    assert j > 0 ==> Less(a[0].key, a[j].key);
  }

  // ----- building a table by a sequence of updates

  function SetAll(m: Table, calls: seq<Entry>): Table {
    if calls == [] then m
    else
      var last := calls[|calls| - 1];
      Set(SetAll(m, calls[..|calls| - 1]), last.key, last.value)
  }

  /** The value of the last call for a key. */
  function LastValue(calls: seq<Entry>, k: string): Option<string> {
    if calls == [] then None
    else
      var last := calls[|calls| - 1];
      if last.key == k then Some(last.value) else LastValue(calls[..|calls| - 1], k)
  }

  /** The last call for a key is the one that no later call for it follows. */
  lemma {:induction false} LastAt(calls: seq<Entry>, i: nat)
    requires i < |calls| && forall j :: i < j < |calls| ==> calls[j].key != calls[i].key
    ensures LastValue(calls, calls[i].key) == Some(calls[i].value)
  {
    if i < |calls| - 1 {
      LastAt(calls[..|calls| - 1], i);
    }
  }

  lemma {:induction false} GetSetAll(m: Table, calls: seq<Entry>, k: string)
    ensures Get(SetAll(m, calls), k) == if LastValue(calls, k).Some? then LastValue(calls, k) else Get(m, k)
  {
    if calls != [] {
      var last := calls[|calls| - 1];
      GetSetAll(m, calls[..|calls| - 1], k);
      GetSet(SetAll(m, calls[..|calls| - 1]), last.key, last.value, k);
    }
  }

  lemma {:induction false} SetAllAppend(m: Table, a: seq<Entry>, b: seq<Entry>)
    ensures SetAll(m, a + b) == SetAll(SetAll(m, a), b)
  {
    if b == [] {
      assert a + b == a;
    } else {
      SetAllAppend(m, a, b[..|b| - 1]);
      assert (a + b)[..|a + b| - 1] == a + b[..|b| - 1];
    }
  }

  /** The last call for each key brings the value that the table has. */
  ghost predicate Repeats(m: Table, calls: seq<Entry>) {
    forall k :: LastValue(calls, k).Some? ==> LastValue(calls, k) == Get(m, k)
  }

  /** Exactly such calls leave the table as it is. */
  lemma SetAllKeepsIff(m: Table, calls: seq<Entry>)
    ensures SetAll(m, calls) == m <==> Repeats(m, calls)
  {
    forall k ensures Get(SetAll(m, calls), k) == if LastValue(calls, k).Some? then LastValue(calls, k) else Get(m, k) {
      GetSetAll(m, calls, k);
    }
    if Repeats(m, calls) {
      SameLookups(SetAll(m, calls), m);
    } else {
      var k :| LastValue(calls, k).Some? && LastValue(calls, k) != Get(m, k);
      assert Get(SetAll(m, calls), k) == LastValue(calls, k);
    }
  }

  /** The order and the repetition of the calls leave no trace beyond the last value of each key. */
  lemma SameLastValues(a: seq<Entry>, b: seq<Entry>)
    requires forall k :: LastValue(a, k) == LastValue(b, k)
    ensures SetAll([], a) == SetAll([], b)
  {
    forall k ensures Get(SetAll([], a), k) == Get(SetAll([], b), k) {
      GetSetAll([], a, k);
      GetSetAll([], b, k);
    }
    SameLookups(SetAll([], a), SetAll([], b));
  }

  /** Inserting a table's own entries in order rebuilds it. */
  lemma {:induction false} SetAllOwn(m: Table)
    ensures SetAll([], m) == m
  {
    if m != [] {
      var front: Table := m[..|m| - 1];
      SetAllOwn(front);
      var last := m[|m| - 1];
      PutLast(front, last.key, last.value);
      assert m == front + [last];
    }
  }

  lemma {:induction false} PutLast(m: seq<Entry>, k: string, v: string)
    requires forall i :: 0 <= i < |m| ==> Less(m[i].key, k)
    ensures Put(m, k, v) == m + [Entry(k, v)]
  {
    if m != [] {
      LessTotal(m[0].key, k);
      LessIrreflexive(k);
      PutLast(m[1..], k, v);
    }
  }

  /** Calls for one key leave its last value. */
  lemma {:induction false} SetAllSame(calls: seq<Entry>, k: string)
    requires calls != [] && forall i :: 0 <= i < |calls| ==> calls[i].key == k
    ensures SetAll([], calls) == [Entry(k, calls[|calls| - 1].value)]
  {
    var front, last := calls[..|calls| - 1], calls[|calls| - 1];
    if front != [] {
      SetAllSame(front, k);
    }
    assert SetAll([], calls) == Set(SetAll([], front), k, last.value);
  }

  lemma {:induction false} SetAllEntries(calls: seq<Entry>)
    ensures forall e :: e in SetAll([], calls) ==> e in calls
  {
    if calls != [] {
      var front, last := calls[..|calls| - 1], calls[|calls| - 1];
      SetAllEntries(front);
      PutEntries(SetAll([], front), last.key, last.value);
    }
  }
}
