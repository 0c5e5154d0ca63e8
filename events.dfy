/**
 * The event record shared by the server and the client, and the ordering both
 * sides sort by: ascending by the instant `${date}T${time}`.
 */
module Events {
  import opened Seqs

  datatype Option<+T> = None | Some(value: T)

  datatype Category = Work | Personal | Other

  /** An event as the server stores it and as it travels as JSON. `notes` may be absent. */
  datatype Event = Event(
    id: string,
    title: string,
    date: string,
    time: string,
    notes: Option<string>,
    archived: bool,
    category: Category)

  /** The text both comparators hand to `new Date`. */
  function When(e: Event): string {
    e.date + "T" + e.time
  }

  // ---------------------------------------------------------------------
  // The order on instants

  /**
   * Character-wise lexicographic order. On fixed-width `YYYY-MM-DD` dates and
   * `HH:MM` times it orders the instants as `getTime()` does.
   */
  predicate LexLe(a: string, b: string)
    decreases |a|
  {
    a == [] || (b != [] && (a[0] < b[0] || (a[0] == b[0] && LexLe(a[1..], b[1..]))))
  }

  lemma {:induction false} LexLeTotal(a: string, b: string)
    ensures LexLe(a, b) || LexLe(b, a)
    decreases |a|
  {
    if a != [] && b != [] && a[0] == b[0] {
      LexLeTotal(a[1..], b[1..]);
    }
  }

  lemma {:induction false} LexLeTransitive(a: string, b: string, c: string)
    requires LexLe(a, b) && LexLe(b, c)
    ensures LexLe(a, c)
    decreases |a|
  {
    if a != [] && a[0] == b[0] == c[0] {
      LexLeTransitive(a[1..], b[1..], c[1..]);
    }
  }

  lemma {:induction false} LexLeAntisymmetric(a: string, b: string)
    requires LexLe(a, b) && LexLe(b, a)
    ensures a == b
    decreases |a|
  {
    if a != [] {
      LexLeAntisymmetric(a[1..], b[1..]);
      assert a == [a[0]] + a[1..] && b == [b[0]] + b[1..];
    }
  }

  /** The comparator `getTime(x) - getTime(y)` is at most zero. */
  predicate NotAfter(x: Event, y: Event) {
    LexLe(When(x), When(y))
  }

  ghost predicate Sorted(s: seq<Event>) {
    forall i, j :: 0 <= i < j < |s| ==> NotAfter(s[i], s[j])
  }

  /** The events that fall on the instant `w`. */
  function At(w: string): Event -> bool {
    (e: Event) => When(e) == w
  }

  ghost predicate UniqueIds(s: seq<Event>) {
    forall i, j :: 0 <= i < j < |s| ==> s[i].id != s[j].id
  }

  // ---------------------------------------------------------------------
  // Sorting: `Array.prototype.sort` with the ascending-instant comparator

  /** Places `x` before the first event it is not after. */
  function Insert(x: Event, s: seq<Event>): (r: seq<Event>)
    ensures |r| == |s| + 1
    ensures multiset(r) == multiset(s) + multiset{x}
  {
    if s == [] || NotAfter(x, s[0]) then [x] + s
    else
      assert s == [s[0]] + s[1..];
      [s[0]] + Insert(x, s[1..])
  }

  /** The stable sort by instant that both the server and the client apply. */
  function SortByWhen(s: seq<Event>): (r: seq<Event>)
    ensures |r| == |s|
    ensures multiset(r) == multiset(s)
  {
    if s == [] then []
    else
      assert s == [s[0]] + s[1..];
      Insert(s[0], SortByWhen(s[1..]))
  }

  lemma {:induction false} InsertSorted(x: Event, s: seq<Event>)
    requires Sorted(s)
    ensures Sorted(Insert(x, s))
  {
    var r := Insert(x, s);
    if s == [] || NotAfter(x, s[0]) {
      forall j | 1 <= j < |r| ensures NotAfter(r[0], r[j]) {
        if j > 1 {
          LexLeTransitive(When(x), When(s[0]), When(s[j - 1]));
        }
      }
    } else {
      var t := Insert(x, s[1..]);
      InsertSorted(x, s[1..]);
      LexLeTotal(When(x), When(s[0]));
      forall j | 0 <= j < |t| ensures NotAfter(s[0], t[j]) {
        assert t[j] in multiset(t);
        if t[j] != x {
          assert t[j] in s[1..];
        }
      }
    }
  }

  /** The sort leaves the events in ascending order of their instants. */
  lemma {:induction false} SortByWhenSorted(s: seq<Event>)
    ensures Sorted(SortByWhen(s))
  {
    if s != [] {
      SortByWhenSorted(s[1..]);
      InsertSorted(s[0], SortByWhen(s[1..]));
    }
  }

  /** Insertion never moves `x` past an event on the same instant. */
  lemma {:induction false} InsertStable(x: Event, s: seq<Event>, w: string)
    ensures Filter(Insert(x, s), At(w)) == Filter([x] + s, At(w))
  {
    if s != [] && !NotAfter(x, s[0]) {
      var t, f := s[1..], At(w);
      assert s == [s[0]] + t;
      assert When(s[0]) != When(x) by {
        if When(s[0]) == When(x) {
          LexLeTotal(When(x), When(s[0]));
        }
      }
      var hx := if f(x) then [x] else [];
      var hs := if f(s[0]) then [s[0]] else [];
      calc {
        Filter(Insert(x, s), f);
        Filter([s[0]] + Insert(x, t), f);
        { FilterCons(s[0], Insert(x, t), f); }
        hs + Filter(Insert(x, t), f);
        { InsertStable(x, t, w); }
        hs + Filter([x] + t, f);
        { FilterCons(x, t, f); }
        hs + (hx + Filter(t, f));
        { assert hs == [] || hx == []; }
        hx + (hs + Filter(t, f));
        { FilterCons(s[0], t, f); }
        hx + Filter(s, f);
        { FilterCons(x, s, f); }
        Filter([x] + s, f);
      }
    }
  }

  /**
   * The sort is stable: the events on any one instant keep their relative
   * order. With sortedness and the permutation this pins the result down.
   */
  lemma {:induction false} SortByWhenStable(s: seq<Event>, w: string)
    ensures Filter(SortByWhen(s), At(w)) == Filter(s, At(w))
  {
    if s != [] {
      var t := s[1..];
      assert s == [s[0]] + t;
      SortByWhenStable(t, w);
      InsertStable(s[0], SortByWhen(t), w);
      FilterAppend([s[0]], SortByWhen(t), At(w));
      FilterAppend([s[0]], t, At(w));
    }
  }

  lemma SortByWhenStableEverywhere(s: seq<Event>)
    ensures forall w :: Filter(SortByWhen(s), At(w)) == Filter(s, At(w))
  {
    forall w ensures Filter(SortByWhen(s), At(w)) == Filter(s, At(w)) {
      SortByWhenStable(s, w);
    }
  }

  lemma {:induction false} InsertKeepsUniqueIds(x: Event, s: seq<Event>)
    requires UniqueIds(s)
    requires forall e :: e in s ==> e.id != x.id
    ensures UniqueIds(Insert(x, s))
  {
    if s != [] && !NotAfter(x, s[0]) {
      var t := Insert(x, s[1..]);
      InsertKeepsUniqueIds(x, s[1..]);
      forall j | 0 <= j < |t| ensures s[0].id != t[j].id {
        assert t[j] in multiset(t);
        if t[j] != x {
          assert t[j] in s[1..];
          var k :| 0 <= k < |s[1..]| && s[1..][k] == t[j];
          assert s[k + 1] == t[j];
        }
      }
    }
  }

  /** Sorting does not create two events with one id. */
  lemma {:induction false} SortKeepsUniqueIds(s: seq<Event>)
    requires UniqueIds(s)
    ensures UniqueIds(SortByWhen(s))
  {
    if s != [] {
      var t := SortByWhen(s[1..]);
      SortKeepsUniqueIds(s[1..]);
      forall e | e in t ensures e.id != s[0].id {
        assert e in multiset(t);
        assert e in s[1..];
      }
      InsertKeepsUniqueIds(s[0], t);
    }
  }
}
