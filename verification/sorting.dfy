/**
  The two orders the store lists records in. JavaScript's `Array.prototype.sort`
  is stable, so both are modelled as insertion sorts that keep records with equal
  keys in their input order.
 */
module Sorting {
  import opened Entities
  import opened Seqs
  import Text

  /** Notes listed most recently active first. */
  predicate MostRecentFirst(s: seq<Note>)
  {
    forall i, j :: 0 <= i < j < |s| ==> LastActivity(s[i]) >= LastActivity(s[j])
  }

  /** Places `x` before the first note that is no more recent than it. */
  function InsertByActivity(x: Note, s: seq<Note>): seq<Note>
  {
    if |s| == 0 || LastActivity(x) >= LastActivity(s[0]) then [x] + s
    else [s[0]] + InsertByActivity(x, s[1..])
  }

  /** The order of the comparator `(a, b) => time(b) - time(a)`. */
  function SortByActivity(s: seq<Note>): seq<Note>
  {
    if |s| == 0 then [] else InsertByActivity(s[0], SortByActivity(s[1..]))
  }

  /** Selects the notes last active at time `t`. */
  function ActiveAt(t: int): Note -> bool
  {
    (n: Note) => LastActivity(n) == t
  }

  lemma {:induction false} InsertByActivityPerm(x: Note, s: seq<Note>)
    ensures multiset(InsertByActivity(x, s)) == multiset(s) + multiset{x}
  {
    if |s| > 0 && LastActivity(x) < LastActivity(s[0]) {
      InsertByActivityPerm(x, s[1..]);
      assert s == [s[0]] + s[1..];
    }
  }

  /** Inserting a note no more recent than a bound into notes under it keeps every note under it. */
  lemma {:induction false} InsertByActivityBounded(x: Note, s: seq<Note>, b: int)
    requires LastActivity(x) <= b
    requires forall i :: 0 <= i < |s| ==> LastActivity(s[i]) <= b
    ensures forall j :: 0 <= j < |InsertByActivity(x, s)| ==> LastActivity(InsertByActivity(x, s)[j]) <= b
  {
    if |s| > 0 && LastActivity(x) < LastActivity(s[0]) {
      InsertByActivityBounded(x, s[1..], b);
      var rest := InsertByActivity(x, s[1..]);
      assert InsertByActivity(x, s) == [s[0]] + rest;
    }
  }

  lemma {:induction false} InsertByActivitySpec(x: Note, s: seq<Note>)
    requires MostRecentFirst(s)
    ensures MostRecentFirst(InsertByActivity(x, s))
    ensures multiset(InsertByActivity(x, s)) == multiset(s) + multiset{x}
  {
    InsertByActivityPerm(x, s);
    if |s| == 0 || LastActivity(x) >= LastActivity(s[0]) {
      var r := [x] + s;
      forall i, j | 0 <= i < j < |r|
        ensures LastActivity(r[i]) >= LastActivity(r[j])
      {
        assert r[j] == s[j - 1];
        if i > 0 {
          assert r[i] == s[i - 1];
        } else if j > 1 {
          assert LastActivity(s[0]) >= LastActivity(s[j - 1]);
        }
      }
    } else {
      var tail := s[1..];
      assert MostRecentFirst(tail) by {
        forall i, j | 0 <= i < j < |tail|
          ensures LastActivity(tail[i]) >= LastActivity(tail[j])
        {
          assert tail[i] == s[i + 1] && tail[j] == s[j + 1];
        }
      }
      forall i | 0 <= i < |tail|
        ensures LastActivity(tail[i]) <= LastActivity(s[0])
      {
        assert tail[i] == s[i + 1];
      }
      InsertByActivitySpec(x, tail);
      InsertByActivityBounded(x, tail, LastActivity(s[0]));
      var rest := InsertByActivity(x, tail);
      var r := [s[0]] + rest;
      assert InsertByActivity(x, s) == r;
      forall i, j | 0 <= i < j < |r|
        ensures LastActivity(r[i]) >= LastActivity(r[j])
      {
        if i > 0 {
          assert r[i] == rest[i - 1] && r[j] == rest[j - 1];
        } else {
          assert r[j] == rest[j - 1];
        }
      }
    }
  }

  /** The listing order is most-recent-first and loses or invents no note. */
  lemma {:induction false} SortByActivitySpec(s: seq<Note>)
    ensures MostRecentFirst(SortByActivity(s))
    ensures multiset(SortByActivity(s)) == multiset(s)
  {
    if |s| > 0 {
      SortByActivitySpec(s[1..]);
      InsertByActivitySpec(s[0], SortByActivity(s[1..]));
      assert s == [s[0]] + s[1..];
    }
  }

  lemma {:induction false} InsertByActivityStable(x: Note, s: seq<Note>, t: int)
    ensures Filter(InsertByActivity(x, s), ActiveAt(t))
         == (if LastActivity(x) == t then [x] else []) + Filter(s, ActiveAt(t))
  {
    if |s| == 0 || LastActivity(x) >= LastActivity(s[0]) {
      assert ([x] + s)[1..] == s;
    } else {
      InsertByActivityStable(x, s[1..], t);
      assert ([s[0]] + InsertByActivity(x, s[1..]))[1..] == InsertByActivity(x, s[1..]);
    }
  }

  /** Notes with the same activity time keep the order they had before sorting. */
  lemma {:induction false} SortByActivityStable(s: seq<Note>, t: int)
    ensures Filter(SortByActivity(s), ActiveAt(t)) == Filter(s, ActiveAt(t))
  {
    if |s| > 0 {
      SortByActivityStable(s[1..], t);
      InsertByActivityStable(s[0], SortByActivity(s[1..]), t);
    }
  }

  /** Folders listed by name in ascending ordinal order. */
  predicate ByName(s: seq<Folder>)
  {
    forall i, j :: 0 <= i < j < |s| ==> Text.NoLater(s[i].name, s[j].name)
  }

  /** Places `x` before the first folder whose name does not sort before it. */
  function InsertByName(x: Folder, s: seq<Folder>): seq<Folder>
  {
    if |s| == 0 || Text.NoLater(x.name, s[0].name) then [x] + s
    else [s[0]] + InsertByName(x, s[1..])
  }

  /** The order of the comparator `(a, b) => a.name.localeCompare(b.name)`. */
  function SortByName(s: seq<Folder>): seq<Folder>
  {
    if |s| == 0 then [] else InsertByName(s[0], SortByName(s[1..]))
  }

  /** Selects the folders called `name`. */
  function Named(name: string): Folder -> bool
  {
    (f: Folder) => f.name == name
  }

  lemma {:induction false} InsertByNamePerm(x: Folder, s: seq<Folder>)
    ensures multiset(InsertByName(x, s)) == multiset(s) + multiset{x}
  {
    if |s| > 0 && !Text.NoLater(x.name, s[0].name) {
      InsertByNamePerm(x, s[1..]);
      assert s == [s[0]] + s[1..];
    }
  }

  /** Inserting a folder named no earlier than a bound among folders named no earlier keeps them all so. */
  lemma {:induction false} InsertByNameBounded(x: Folder, s: seq<Folder>, b: string)
    requires Text.NoLater(b, x.name)
    requires forall i :: 0 <= i < |s| ==> Text.NoLater(b, s[i].name)
    ensures forall j :: 0 <= j < |InsertByName(x, s)| ==> Text.NoLater(b, InsertByName(x, s)[j].name)
  {
    if |s| > 0 && !Text.NoLater(x.name, s[0].name) {
      InsertByNameBounded(x, s[1..], b);
      var rest := InsertByName(x, s[1..]);
      assert InsertByName(x, s) == [s[0]] + rest;
    }
  }

  lemma {:induction false} InsertByNameSpec(x: Folder, s: seq<Folder>)
    requires ByName(s)
    ensures ByName(InsertByName(x, s))
    ensures multiset(InsertByName(x, s)) == multiset(s) + multiset{x}
  {
    InsertByNamePerm(x, s);
    if |s| == 0 {
    } else if Text.NoLater(x.name, s[0].name) {
      var r := [x] + s;
      forall i, j | 0 <= i < j < |r|
        ensures Text.NoLater(r[i].name, r[j].name)
      {
        if i == 0 && j > 1 {
          Text.NoLaterTransitive(x.name, s[0].name, s[j - 1].name);
        }
      }
    } else {
      InsertByNameSpec(x, s[1..]);
      Text.NoLaterTotal(x.name, s[0].name);
      var rest := InsertByName(x, s[1..]);
      InsertByNameBounded(x, s[1..], s[0].name);
      var r := [s[0]] + rest;
      forall i, j | 0 <= i < j < |r|
        ensures Text.NoLater(r[i].name, r[j].name)
      {
        if i > 0 {
          assert r[i] == rest[i - 1] && r[j] == rest[j - 1];
        } else {
          assert r[j] == rest[j - 1];
        }
      }
    }
  }

  /** The folder listing is in name order and loses or invents no folder. */
  lemma {:induction false} SortByNameSpec(s: seq<Folder>)
    ensures ByName(SortByName(s))
    ensures multiset(SortByName(s)) == multiset(s)
  {
    if |s| > 0 {
      SortByNameSpec(s[1..]);
      InsertByNameSpec(s[0], SortByName(s[1..]));
      assert s == [s[0]] + s[1..];
    }
  }

  lemma {:induction false} InsertByNameStable(x: Folder, s: seq<Folder>, name: string)
    ensures Filter(InsertByName(x, s), Named(name))
         == (if x.name == name then [x] else []) + Filter(s, Named(name))
  {
    if |s| == 0 || Text.NoLater(x.name, s[0].name) {
      assert ([x] + s)[1..] == s;
    } else {
      InsertByNameStable(x, s[1..], name);
      Text.NoLaterReflexive(x.name);
      assert ([s[0]] + InsertByName(x, s[1..]))[1..] == InsertByName(x, s[1..]);
    }
  }

  /** Folders with equal names keep the order they had before sorting. */
  lemma {:induction false} SortByNameStable(s: seq<Folder>, name: string)
    ensures Filter(SortByName(s), Named(name)) == Filter(s, Named(name))
  {
    if |s| > 0 {
      SortByNameStable(s[1..], name);
      InsertByNameStable(s[0], SortByName(s[1..]), name);
    }
  }
}
