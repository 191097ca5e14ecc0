/** The live feeds: a bounded, deduplicated, sorted cache, updated one poll at a time, against
    the top rows of everything ever received. */
module Feed {

  import opened Sorting
  import opened Wrappers

  /** `key` is the number the comparator sees for `ts_ns`. */
  datatype Row = Row(id: int, key: real)

  ghost predicate UniqueIds(s: seq<Row>) {
    forall i, j :: 0 <= i < j < |s| ==> s[i].id != s[j].id
  }

  /** What the comparator orders by, newest first. */
  function KeyOf(): Row -> real {
    (r: Row) => r.key
  }

  ghost predicate Sorted(s: seq<Row>) {
    forall i, j :: 0 <= i < j < |s| ==> s[i].key >= s[j].key
  }

  /** Rows never change: one id, one row. */
  ghost predicate Consistent(all: set<Row>) {
    forall a, b :: a in all && b in all && a.id == b.id ==> a == b
  }

  ghost function Rows(s: seq<Row>): set<Row> {
    set r | r in s
  }

  // ----- The merge -----

  predicate Seen(prev: seq<Row>, id: int) {
    exists i :: 0 <= i < |prev| && prev[i].id == id
  }

  function Unseen(prev: seq<Row>, next: seq<Row>): (s: seq<Row>)
    ensures forall r :: r in s <==> r in next && !Seen(prev, r.id)
  {
    if next == [] then []
    else
      assert next == [next[0]] + next[1..];
      (if Seen(prev, next[0].id) then [] else [next[0]]) + Unseen(prev, next[1..])
  }

  /** `merged.sort((a, b) => b.key - a.key)`. */
  function SortDescending(s: seq<Row>): seq<Row> {
    SortBy(s, KeyOf())
  }

  function Merge(prev: seq<Row>, next: seq<Row>, capacity: nat): seq<Row> {
    var merged := SortDescending(Unseen(prev, next) + prev);
    if |merged| <= capacity then merged else merged[..capacity]
  }

  function Handle(prev: seq<Row>, next: seq<Row>, capacity: nat): seq<Row> {
    if next == [] then prev else Merge(prev, next, capacity)
  }

  // ----- The specification -----

  /** What has been left out is no larger than anything shown, and is left out only for want of
      room. */
  ghost predicate Covers(shown: seq<Row>, all: set<Row>, capacity: nat) {
    && (forall r :: r in shown ==> r in all)
    && (forall r :: r in all && r !in shown ==> |shown| == capacity)
    && (forall r, d :: r in all && r !in shown && d in shown ==> r.key <= d.key)
  }

  /** `shown` lists the `capacity` largest rows of `all`, each once. */
  ghost predicate TopRows(shown: seq<Row>, all: set<Row>, capacity: nat) {
    UniqueIds(shown) && Covers(shown, all, capacity) && Sorted(shown) && |shown| <= capacity
  }

  // ----- Sequences without repeated ids, as sets -----

  lemma {:induction false} SizeOfRows(s: seq<Row>)
    requires UniqueIds(s)
    ensures |Rows(s)| == |s|
  {
    if s != [] {
      var t, x := s[..|s| - 1], s[|s| - 1];
      SizeOfRows(t);
      assert x !in t;
      assert Rows(s) == Rows(t) + {x};
    }
  }

  lemma {:induction false} NoPigeonhole(a: seq<Row>, b: seq<Row>)
    requires UniqueIds(a) && UniqueIds(b) && |a| > |b|
    ensures exists r :: r in a && r !in b
  {
    SizeOfRows(a);
    SizeOfRows(b);
    if forall r :: r in a ==> r in b {
      Subset(Rows(a), Rows(b));
    }
  }

  lemma {:induction false} Subset(a: set<Row>, b: set<Row>)
    requires a <= b
    ensures |a| <= |b|
  {
    if a != {} {
      var x :| x in a;
      Subset(a - {x}, b - {x});
    }
  }

  lemma {:induction false} AfterPrefix(s: seq<Row>, n: nat, r: Row) returns (i: nat)
    requires n <= |s| && r in s && r !in s[..n]
    ensures n <= i < |s| && s[i] == r
  {
    assert s == s[..n] + s[n..];
    var j :| 0 <= j < |s[n..]| && s[n..][j] == r;
    i := n + j;
  }

  // ----- One poll -----

  lemma {:induction false} UnseenUnique(prev: seq<Row>, next: seq<Row>)
    requires UniqueIds(next)
    ensures UniqueIds(Unseen(prev, next))
  {
    if next != [] {
      UnseenUnique(prev, next[1..]);
      var u := Unseen(prev, next[1..]);
      forall i | 0 <= i < |u|
        ensures u[i].id != next[0].id
      {
        assert u[i] in next[1..];
        var k :| 0 <= k < |next[1..]| && next[1..][k] == u[i];
        assert next[k + 1] == u[i];
      }
    }
  }

  lemma {:induction false} MergedUnique(prev: seq<Row>, next: seq<Row>)
    requires UniqueIds(prev)
    ensures UniqueIds(Unseen(prev, next) + prev) <==> UniqueIds(Unseen(prev, next))
  {
    var u := Unseen(prev, next);
    var m := u + prev;
    if UniqueIds(u) {
      forall i, j | 0 <= i < j < |m|
        ensures m[i].id != m[j].id
      {
        if i < |u| <= j {
          assert u[i] in u && !Seen(prev, u[i].id) && prev[j - |u|].id == m[j].id;
        }
      }
    }
    if UniqueIds(m) {
      forall i, j | 0 <= i < j < |u|
        ensures u[i].id != u[j].id
      {
        assert m[i] == u[i] && m[j] == u[j];
      }
    }
  }

  ghost predicate Merged(prev: seq<Row>, next: seq<Row>, merged: seq<Row>) {
    Sorted(merged) && |prev| <= |merged| && forall r :: r in merged <==> r in prev || r in next
  }

  lemma {:induction false} MergedRows(prev: seq<Row>, next: seq<Row>, all: set<Row>)
    requires Consistent(all) && (forall r :: r in prev || r in next ==> r in all)
    ensures Merged(prev, next, SortDescending(Unseen(prev, next) + prev))
  {
    var m := Unseen(prev, next) + prev;
    SortMeaning(m, KeyOf());
    assert Sorted(SortDescending(m));
    forall r
      ensures r in m <==> r in prev || r in next
    {
      if r in next && Seen(prev, r.id) {
        var i :| 0 <= i < |prev| && prev[i].id == r.id;
        assert prev[i] in prev;
      }
    }
  }

  /** A row among the first `capacity` merged ones beats, or ties with, some old row. */
  lemma {:induction false} Displaced(prev: seq<Row>, unseen: seq<Row>, capacity: nat, k: nat) returns (p: Row)
    requires |prev| == capacity && k < capacity && k < |SortDescending(unseen + prev)|
    ensures p in prev && p.key <= SortDescending(unseen + prev)[k].key
  {
    var m := unseen + prev;
    SortMeaning(m, KeyOf());
    var j := RankOnto(m, KeyOf(), k);
    RankSort(m, KeyOf(), j);
    if forall p :: p in prev ==> p.key > m[j].key {
      FilterConcat(unseen, prev, Above(KeyOf(), m[j].key));
      FilterAll(prev, Above(KeyOf(), m[j].key));
      assert false;
    }
    p :| p in prev && p.key <= m[j].key;
  }

  lemma {:induction false} CutOff(merged: seq<Row>, capacity: nat, r: Row, d: Row)
    requires Sorted(merged) && capacity <= |merged| && r in merged && r !in merged[..capacity] && d in merged[..capacity]
    ensures r.key <= d.key
  {
    var i := AfterPrefix(merged, capacity, r);
  }

  /** Whatever is not among the first `capacity` merged rows is no larger than any that is. */
  lemma {:induction false} LeftOutIsSmaller(prev: seq<Row>, next: seq<Row>, all: set<Row>, capacity: nat, r: Row, d: Row)
    requires var merged := SortDescending(Unseen(prev, next) + prev);
             && Covers(prev, all, capacity) && Merged(prev, next, merged) && capacity <= |merged|
             && r in all + Rows(next) && r !in merged[..capacity] && d in merged[..capacity]
    ensures r.key <= d.key
  {
    hide SortBy, Unseen;
    var merged := SortDescending(Unseen(prev, next) + prev);
    if r in merged {
      CutOff(merged, capacity, r, d);
    } else {
      var k :| 0 <= k < capacity && merged[k] == d;
      var p := Displaced(prev, Unseen(prev, next), capacity, k);
    }
  }

  /** One non-empty poll, whatever it holds and whatever was shown: if that covered everything
      received so far, the rows shown now cover everything received, including rows that had been
      evicted and are delivered again, and are its top rows exactly when none is shown twice. */
  lemma {:induction false} MergeKeepsTop(prev: seq<Row>, next: seq<Row>, all: set<Row>, capacity: nat)
    requires Covers(prev, all, capacity) && Consistent(all + Rows(next))
    ensures var shown := Merge(prev, next, capacity);
            && Covers(shown, all + Rows(next), capacity) && Sorted(shown) && |shown| <= capacity
            && (TopRows(shown, all + Rows(next), capacity) <==> UniqueIds(shown))
  {
    hide SortBy, Unseen, Seen;
    var shown := Merge(prev, next, capacity);
    var all' := all + Rows(next);
    var merged := SortDescending(Unseen(prev, next) + prev);
    MergedRows(prev, next, all');
    assert forall r :: r in shown ==> r in merged;
    forall r, d | r in all' && r !in shown && d in shown
      ensures r.key <= d.key
    {
      assert capacity <= |merged| && shown == merged[..capacity];
      LeftOutIsSmaller(prev, next, all, capacity, r, d);
    }
  }

  // ----- Where each row goes -----

  lemma {:induction false} UnseenConcat(prev: seq<Row>, a: seq<Row>, b: seq<Row>)
    ensures Unseen(prev, a + b) == Unseen(prev, a) + Unseen(prev, b)
  {
    hide Seen;
    if a == [] {
      assert a + b == b;
    } else {
      var head := if Seen(prev, a[0].id) then [] else [a[0]];
      assert (a + b)[1..] == a[1..] + b;
      UnseenConcat(prev, a[1..], b);
      HeadFirst(head, Unseen(prev, a[1..]), Unseen(prev, b));
    }
  }

  lemma {:induction false} HeadFirst(head: seq<Row>, a: seq<Row>, b: seq<Row>)
    ensures head + (a + b) == (head + a) + b
  {
  }

  lemma {:induction false} UnseenOne(prev: seq<Row>, r: Row)
    ensures Unseen(prev, []) == []
    ensures Unseen(prev, [r]) == if exists i :: 0 <= i < |prev| && prev[i].id == r.id then [] else [r]
  {
    assert Unseen(prev, [r]) == (if Seen(prev, r.id) then [] else [r]) + Unseen(prev, [r][1..]);
    assert [r][1..] == [];
  }

  /** The filter takes the rows of the response in order, and each time a row comes, if no row shown
      has its id. */
  lemma {:induction false} UnseenLaw(prev: seq<Row>, a: seq<Row>, r: Row, b: seq<Row>)
    ensures Unseen(prev, []) == []
    ensures Unseen(prev, a + [r] + b)
         == Unseen(prev, a) + (if exists i :: 0 <= i < |prev| && prev[i].id == r.id then [] else [r]) + Unseen(prev, b)
  {
    hide Unseen, Seen;
    UnseenConcat(prev, a + [r], b);
    UnseenConcat(prev, a, [r]);
    UnseenOne(prev, r);
  }

  /** How many rows go before row `i`: those with larger keys, and those with an equal key that come
      earlier. */
  function RowsBefore(m: seq<Row>, i: nat): nat
    requires i < |m|
  {
    |Filter(m, (r: Row) => r.key > m[i].key)| + |Filter(m[..i], (r: Row) => r.key == m[i].key)|
  }

  lemma {:induction false} RowsBeforeIsRank(m: seq<Row>, i: nat)
    requires i < |m|
    ensures RowsBefore(m, i) == Rank(m, KeyOf(), i)
  {
    hide Filter;
    FilterLength(m, m, (r: Row) => r.key > m[i].key, Above(KeyOf(), m[i].key));
    FilterLength(m[..i], m[..i], (r: Row) => r.key == m[i].key, Tied(KeyOf(), m[i].key));
  }

  /** Each row, the new ones before those shown, lands behind the rows that go before it; beyond the
      capacity it is dropped. */
  lemma {:induction false} MergePlaces(prev: seq<Row>, next: seq<Row>, capacity: nat, i: nat)
    requires i < |Unseen(prev, next) + prev|
    ensures var m, shown := Unseen(prev, next) + prev, Merge(prev, next, capacity);
            var at := RowsBefore(m, i);
            && |shown| == (if |m| <= capacity then |m| else capacity)
            && (at < capacity ==> at < |shown| && shown[at] == m[i])
  {
    hide Unseen, SortBy, Rank, RowsBefore, Filter;
    var m := Unseen(prev, next) + prev;
    SortMeaning(m, KeyOf());
    RankSort(m, KeyOf(), i);
    RowsBeforeIsRank(m, i);
  }

  // ----- Rows shown twice -----

  /** What a caller can check: of two rows with one id, new or shown, one ranks beyond the cut. */
  ghost predicate RepeatsCut(prev: seq<Row>, next: seq<Row>, capacity: nat) {
    var m := Unseen(prev, next) + prev;
    forall i, j :: 0 <= i < j < |m| && m[i].id == m[j].id ==>
      Rank(m, KeyOf(), i) >= capacity || Rank(m, KeyOf(), j) >= capacity
  }

  lemma {:induction false} RepeatShown(prev: seq<Row>, next: seq<Row>, capacity: nat, i: nat, j: nat)
    requires var m := Unseen(prev, next) + prev;
             && i < j < |m| && m[i].id == m[j].id
             && Rank(m, KeyOf(), i) < capacity && Rank(m, KeyOf(), j) < capacity
    ensures !UniqueIds(Merge(prev, next, capacity))
  {
    hide Rank, Unseen, SortBy;
    var m := Unseen(prev, next) + prev;
    RankSort(m, KeyOf(), i);
    RankSort(m, KeyOf(), j);
    RankInjective(m, KeyOf(), i, j);
    var shown, a, b := Merge(prev, next, capacity), Rank(m, KeyOf(), i), Rank(m, KeyOf(), j);
    assert shown[a].id == shown[b].id;
  }

  lemma {:induction false} ShownApart(prev: seq<Row>, next: seq<Row>, capacity: nat, a: nat, b: nat)
    requires RepeatsCut(prev, next, capacity) && a < b < |Merge(prev, next, capacity)|
    ensures Merge(prev, next, capacity)[a].id != Merge(prev, next, capacity)[b].id
  {
    hide Rank, Unseen, SortBy;
    var m := Unseen(prev, next) + prev;
    SortMeaning(m, KeyOf());
    var i := RankOnto(m, KeyOf(), a);
    var j := RankOnto(m, KeyOf(), b);
    RankSort(m, KeyOf(), i);
    RankSort(m, KeyOf(), j);
  }

  /** Exactly when the rows shown after a poll repeat no id, at every capacity and whatever was shown
      before. */
  lemma {:induction false} ShownUnique(prev: seq<Row>, next: seq<Row>, capacity: nat)
    ensures UniqueIds(Merge(prev, next, capacity)) <==> RepeatsCut(prev, next, capacity)
  {
    var m := Unseen(prev, next) + prev;
    if RepeatsCut(prev, next, capacity) {
      forall a, b | 0 <= a < b < |Merge(prev, next, capacity)|
        ensures Merge(prev, next, capacity)[a].id != Merge(prev, next, capacity)[b].id
      {
        ShownApart(prev, next, capacity, a, b);
      }
    } else {
      var i, j :| 0 <= i < j < |m| && m[i].id == m[j].id
        && Rank(m, KeyOf(), i) < capacity && Rank(m, KeyOf(), j) < capacity;
      RepeatShown(prev, next, capacity, i, j);
    }
  }

  /** A response whose unseen rows repeat no id is shown without repetition at every capacity; one
      that repeats an id is not, as long as everything fits. */
  lemma {:induction false} CleanResponse(prev: seq<Row>, next: seq<Row>, capacity: nat)
    requires UniqueIds(prev)
    ensures UniqueIds(Unseen(prev, next)) ==> UniqueIds(Handle(prev, next, capacity))
    ensures next != [] && UniqueIds(Handle(prev, next, capacity)) && |Unseen(prev, next) + prev| <= capacity ==>
              UniqueIds(Unseen(prev, next))
  {
    MergedUnique(prev, next);
    ShownUnique(prev, next, capacity);
    if next != [] && UniqueIds(Handle(prev, next, capacity)) && |Unseen(prev, next) + prev| <= capacity {
      AllShown(prev, next, capacity);
    }
  }

  lemma {:induction false} AllShown(prev: seq<Row>, next: seq<Row>, capacity: nat)
    requires UniqueIds(Merge(prev, next, capacity)) && |Unseen(prev, next) + prev| <= capacity
    ensures UniqueIds(Unseen(prev, next) + prev)
  {
    hide Unseen, SortBy;
    var m := Unseen(prev, next) + prev;
    SortMeaning(m, KeyOf());
    ShownUnique(prev, next, capacity);
    forall i, j | 0 <= i < j < |m|
      ensures m[i].id != m[j].id
    {
      RankSort(m, KeyOf(), i);
      RankSort(m, KeyOf(), j);
    }
  }

  // ----- Whole sessions -----

  function Session(initial: seq<Row>, polls: seq<seq<Row>>, capacity: nat): seq<Row> {
    if polls == [] then initial
    else Handle(Session(initial, polls[..|polls| - 1], capacity), polls[|polls| - 1], capacity)
  }

  ghost function Received(initial: seq<Row>, polls: seq<seq<Row>>): set<Row> {
    if polls == [] then Rows(initial)
    else Received(initial, polls[..|polls| - 1]) + Rows(polls[|polls| - 1])
  }

  ghost predicate SomeRows(polls: seq<seq<Row>>) {
    exists i :: 0 <= i < |polls| && polls[i] != []
  }

  lemma {:induction false} SomeRowsAppend(before: seq<seq<Row>>, next: seq<Row>)
    ensures SomeRows(before + [next]) <==> SomeRows(before) || next != []
  {
    var polls := before + [next];
    if SomeRows(before) {
      var i :| 0 <= i < |before| && before[i] != [];
      assert polls[i] != [];
    }
    assert polls[|before|] == next;
  }

  /** Whatever the responses: what is shown covers everything received, in order once rows have
      arrived. */
  lemma {:induction false} SessionCovers(initial: seq<Row>, polls: seq<seq<Row>>, capacity: nat)
    requires Consistent(Received(initial, polls))
    ensures var shown := Session(initial, polls, capacity);
            && Covers(shown, Received(initial, polls), capacity)
            && (SomeRows(polls) ==> Sorted(shown) && |shown| <= capacity)
  {
    if polls != [] {
      var before, next := polls[..|polls| - 1], polls[|polls| - 1];
      assert polls == before + [next];
      SomeRowsAppend(before, next);
      SessionCovers(initial, before, capacity);
      if next != [] {
        MergeKeepsTop(Session(initial, before, capacity), next, Received(initial, before), capacity);
      } else {
        assert Received(initial, polls) == Received(initial, before);
      }
    }
  }

  /** After every session of any responses that brought rows, the feed shows the top rows of
      everything ever received exactly when it shows no id twice then, whatever it showed before. */
  lemma {:induction false} SessionTopExactly(initial: seq<Row>, polls: seq<seq<Row>>, capacity: nat)
    requires Consistent(Received(initial, polls)) && SomeRows(polls)
    ensures TopRows(Session(initial, polls, capacity), Received(initial, polls), capacity)
       <==> UniqueIds(Session(initial, polls, capacity))
  {
    SessionCovers(initial, polls, capacity);
  }

  /** Responses that repeat no id never show one twice. */
  lemma {:induction false} UniqueResponses(initial: seq<Row>, polls: seq<seq<Row>>, capacity: nat)
    requires UniqueIds(initial) && forall i :: 0 <= i < |polls| ==> UniqueIds(polls[i])
    ensures UniqueIds(Session(initial, polls, capacity))
  {
    if polls != [] {
      var before, next := polls[..|polls| - 1], polls[|polls| - 1];
      UniqueResponses(initial, before, capacity);
      var prev := Session(initial, before, capacity);
      UnseenUnique(prev, next);
      CleanResponse(prev, next, capacity);
    }
  }

  /** After any session with a non-empty poll, of responses that each repeat no id, the feed shows
      the top rows of everything ever received. */
  lemma {:induction false} SessionShowsTop(initial: seq<Row>, polls: seq<seq<Row>>, capacity: nat)
    requires UniqueIds(initial) && (forall i :: 0 <= i < |polls| ==> UniqueIds(polls[i]))
    requires Consistent(Received(initial, polls)) && SomeRows(polls)
    ensures TopRows(Session(initial, polls, capacity), Received(initial, polls), capacity)
  {
    UniqueResponses(initial, polls, capacity);
    SessionTopExactly(initial, polls, capacity);
  }

  lemma {:induction false} SameSize(a: seq<Row>, b: seq<Row>, all: set<Row>, capacity: nat)
    requires TopRows(a, all, capacity) && TopRows(b, all, capacity)
    ensures |a| <= |b|
  {
    if |a| > |b| {
      NoPigeonhole(a, b);
    }
  }

  lemma {:induction false} NoLargerKey(a: seq<Row>, b: seq<Row>, all: set<Row>, capacity: nat, i: nat)
    requires TopRows(a, all, capacity) && TopRows(b, all, capacity) && i < |a| && i < |b|
    ensures a[i].key <= b[i].key
  {
    NoPigeonhole(a[..i + 1], b[..i]);
    var r :| r in a[..i + 1] && r !in b[..i];
    assert a[i].key <= r.key && r in a;
    assert b[i] in b;
    if r in b {
      var k := AfterPrefix(b, i, r);
    }
  }

  /** The keys shown are determined by what was received, not by the order of the polls; with
      distinct keys, so are the rows. */
  lemma {:induction false} TopRowsDetermined(a: seq<Row>, b: seq<Row>, all: set<Row>, capacity: nat)
    requires TopRows(a, all, capacity) && TopRows(b, all, capacity)
    ensures |a| == |b| && forall i :: 0 <= i < |a| ==> a[i].key == b[i].key
    ensures (forall r, s :: r in all && s in all && r.key == s.key ==> r == s) ==> a == b
  {
    SameSize(a, b, all, capacity);
    SameSize(b, a, all, capacity);
    forall i | 0 <= i < |a|
      ensures a[i].key == b[i].key && a[i] in all && b[i] in all
    {
      NoLargerKey(a, b, all, capacity, i);
      NoLargerKey(b, a, all, capacity, i);
      assert a[i] in a && b[i] in b;
    }
  }

  /** Two sessions that received the same rows, and show no id twice, show the same keys. */
  lemma {:induction false} PollOrderIrrelevant(initial: seq<Row>, ps: seq<seq<Row>>, qs: seq<seq<Row>>, capacity: nat)
    requires Consistent(Received(initial, ps)) && Received(initial, ps) == Received(initial, qs)
    requires UniqueIds(Session(initial, ps, capacity)) && UniqueIds(Session(initial, qs, capacity))
    requires SomeRows(ps) && SomeRows(qs)
    ensures var a, b := Session(initial, ps, capacity), Session(initial, qs, capacity);
            |a| == |b| && forall i :: 0 <= i < |a| ==> a[i].key == b[i].key
  {
    SessionTopExactly(initial, ps, capacity);
    SessionTopExactly(initial, qs, capacity);
    TopRowsDetermined(Session(initial, ps, capacity), Session(initial, qs, capacity), Received(initial, ps), capacity);
  }

  /** Deduplication looks at the rows shown, not inside the response: a response that repeats an
      id shows it twice. */
  lemma {:induction false} RepeatedIdShownTwice()
    ensures Handle([], [Row(7, 1.0), Row(7, 1.0)], 50) == [Row(7, 1.0), Row(7, 1.0)]
  {
    var r := Row(7, 1.0);
    assert [r, r][1..] == [r] && [r][1..] == [];
    assert Unseen([], [r]) == [r] && Unseen([], [r, r]) == [r, r];
    assert Insert(r, [], KeyOf()) == [r] && Insert(r, [r], KeyOf()) == [r, r];
    assert SortDescending([r]) == [r] && SortDescending([r, r]) == [r, r];
    assert [r, r] + [] == [r, r];
  }

  // ----- The component state -----

  class ScoreFeed {
    const capacity: nat
    var rows: seq<Row>
    ghost var received: set<Row>

    /** The rows shown cover everything received. */
    ghost predicate Valid()
      reads this
    {
      Consistent(received) && Covers(rows, received, capacity)
    }

    constructor (initial: seq<Row>, capacity: nat)
      ensures rows == initial && this.capacity == capacity && received == Rows(initial)
      ensures Consistent(Rows(initial)) ==> Valid()
    {
      rows := initial;
      received := Rows(initial);
      this.capacity := capacity;
    }

    /** Any response leaves the feed valid; after a non-empty one it shows the top rows of everything
        received exactly when all repeats of an id, new or shown before, fall beyond the cut. */
    method OnData(next: seq<Row>)
      modifies this`rows, this`received
      ensures received == old(received) + Rows(next)
      ensures rows == Handle(old(rows), next, capacity)
      ensures next == [] ==> rows == old(rows)
      ensures old(Valid()) && Consistent(received) ==> Valid()
      ensures old(Valid()) && Consistent(received) && next != [] ==>
                (TopRows(rows, received, capacity) <==> RepeatsCut(old(rows), next, capacity))
    {
      if |next| == 0 {
        assert received + Rows(next) == received;
        return;
      }
      ghost var before := rows;
      received := received + Rows(next);
      var merged := Unseen(rows, next) + rows;
      merged := SortDescending(merged);
      rows := if |merged| <= capacity then merged else merged[..capacity];
      PollOutcome(before, next, old(received), capacity);
    }
  }

  lemma {:induction false} PollOutcome(prev: seq<Row>, next: seq<Row>, all: set<Row>, capacity: nat)
    requires next != []
    ensures Covers(prev, all, capacity) && Consistent(all + Rows(next)) ==>
              var shown := Handle(prev, next, capacity);
              && Covers(shown, all + Rows(next), capacity)
              && (TopRows(shown, all + Rows(next), capacity) <==> RepeatsCut(prev, next, capacity))
  {
    if Covers(prev, all, capacity) && Consistent(all + Rows(next)) {
      MergeKeepsTop(prev, next, all, capacity);
      ShownUnique(prev, next, capacity);
    }
  }

  /** The row at `i` is the first with the selected id or, when none has it, the first of all. */
  predicate IsSelected(rows: seq<Row>, selectedId: Option<int>, i: int)
    requires 0 <= i < |rows|
  {
    if selectedId.Some? && Seen(rows, selectedId.value)
    then rows[i].id == selectedId.value && forall j :: 0 <= j < i ==> rows[j].id != selectedId.value
    else i == 0
  }

  /** The report list keeps a selection beside its rows. */
  class ReportInspector {
    const capacity: nat
    var rows: seq<Row>
    var selectedId: Option<int>
    ghost var received: set<Row>

    ghost predicate Valid()
      reads this
    {
      Consistent(received) && Covers(rows, received, capacity)
    }

    constructor (initial: seq<Row>, capacity: nat)
      ensures rows == initial && this.capacity == capacity && received == Rows(initial)
      ensures selectedId == if initial == [] then None else Some(initial[0].id)
      ensures Consistent(Rows(initial)) ==> Valid()
    {
      rows := initial;
      received := Rows(initial);
      this.capacity := capacity;
      selectedId := if initial == [] then None else Some(initial[0].id);
    }

    /** As for the scores; the selection is set by the first rows that arrive and then kept. */
    method OnData(next: seq<Row>)
      modifies this
      ensures received == old(received) + Rows(next)
      ensures rows == Handle(old(rows), next, capacity)
      ensures next == [] ==> rows == old(rows)
      ensures selectedId == if old(selectedId).None? && next != [] then Some(next[0].id) else old(selectedId)
      ensures old(Valid()) && Consistent(received) ==> Valid()
      ensures old(Valid()) && Consistent(received) && next != [] ==>
                (TopRows(rows, received, capacity) <==> RepeatsCut(old(rows), next, capacity))
    {
      if |next| == 0 {
        assert received + Rows(next) == received;
        return;
      }
      ghost var before := rows;
      received := received + Rows(next);
      var merged := Unseen(rows, next) + rows;
      merged := SortDescending(merged);
      rows := if |merged| <= capacity then merged else merged[..capacity];
      if selectedId.None? {
        selectedId := Some(next[0].id);
      }
      PollOutcome(before, next, old(received), capacity);
    }

    /** The first of the rows with the selected id if one is still shown, otherwise the first row
        shown. */
    method Selected() returns (r: Option<Row>)
      ensures r.None? <==> rows == []
      ensures r.Some? ==> exists i :: 0 <= i < |rows| && r.value == rows[i] && IsSelected(rows, selectedId, i)
    {
      for i := 0 to |rows|
        invariant selectedId.Some? ==> forall j :: 0 <= j < i ==> rows[j].id != selectedId.value
      {
        if selectedId == Some(rows[i].id) {
          return Some(rows[i]);
        }
      }
      r := if rows == [] then None else Some(rows[0]);
      assert rows != [] ==> IsSelected(rows, selectedId, 0);
    }
  }
}
