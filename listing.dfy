/**
 * `SELECT ... FROM students ORDER BY name` and what the selector shows:
 * `load_students` (every student as `"idx - name"`, the first selected) and
 * `filter_students` (those whose name or index contains the typed text).
 */
module Listing {
  import opened Wrappers
  import opened Text
  import opened Records

  /** SQLite's BINARY text order: character by character, a proper prefix
      first. */
  predicate NameLe(a: string, b: string) {
    if a == [] then true
    else if b == [] then false
    else if a[0] != b[0] then a[0] < b[0]
    else NameLe(a[1..], b[1..])
  }

  lemma {:induction false} NameLeTotal(a: string, b: string)
    ensures NameLe(a, b) || NameLe(b, a)
  {
    if a != [] && b != [] && a[0] == b[0] {
      NameLeTotal(a[1..], b[1..]);
    }
  }

  lemma {:induction false} NameLeTrans(a: string, b: string, c: string)
    requires NameLe(a, b) && NameLe(b, c)
    ensures NameLe(a, c)
  {
    if a != [] && b != [] && c != [] && a[0] == b[0] && b[0] == c[0] {
      NameLeTrans(a[1..], b[1..], c[1..]);
    }
  }

  /** `key` never decreases along `s`. */
  predicate SortedBy<T>(s: seq<T>, key: T -> string) {
    forall i, j :: 0 <= i < j < |s| ==> NameLe(key(s[i]), key(s[j]))
  }

  /** Insert `x` before the first element it does not follow. */
  function InsertBy<T>(x: T, s: seq<T>, key: T -> string): (r: seq<T>)
    ensures multiset(r) == multiset(s) + multiset{x}
  {
    if s == [] then [x]
    else if NameLe(key(x), key(s[0])) then [x] + s
    else
      assert s == [s[0]] + s[1..];
      [s[0]] + InsertBy(x, s[1..], key)
  }

  /** A stable insertion sort: rows with equal names keep table order. */
  function SortBy<T>(s: seq<T>, key: T -> string): (r: seq<T>)
    ensures multiset(r) == multiset(s)
  {
    if s == [] then []
    else
      assert s == [s[0]] + s[1..];
      InsertBy(s[0], SortBy(s[1..], key), key)
  }

  lemma {:induction false} InsertSorted<T>(x: T, s: seq<T>, key: T -> string)
    requires SortedBy(s, key)
    ensures SortedBy(InsertBy(x, s, key), key)
  {
    if s == [] {
    } else if NameLe(key(x), key(s[0])) {
      var r := [x] + s;
      forall i, j | 0 <= i < j < |r| ensures NameLe(key(r[i]), key(r[j])) {
        if i == 0 && j > 1 {
          NameLeTrans(key(x), key(s[0]), key(s[j - 1]));
        }
      }
    } else {
      NameLeTotal(key(x), key(s[0]));
      var rest := InsertBy(x, s[1..], key);
      InsertSorted(x, s[1..], key);
      var r := [s[0]] + rest;
      forall i, j | 0 <= i < j < |r| ensures NameLe(key(r[i]), key(r[j])) {
        if i == 0 {
          var y := r[j];
          assert y in multiset(rest);
          assert y == x || y in multiset(s[1..]);
          if y != x {
            var k :| 0 <= k < |s[1..]| && s[1..][k] == y;
            assert s[k + 1] == y;
          }
        }
      }
    }
  }

  /** The sort's result is in name order. */
  lemma {:induction false} SortSorted<T>(s: seq<T>, key: T -> string)
    ensures SortedBy(SortBy(s, key), key)
  {
    if s != [] {
      SortSorted(s[1..], key);
      InsertSorted(s[0], SortBy(s[1..], key), key);
    }
  }

  function NameOf(s: Student): string {
    s.name
  }

  /** The students table `ORDER BY name`: every row once, in name order. */
  function ByName(ss: seq<Student>): (r: seq<Student>)
    ensures multiset(r) == multiset(ss)
    ensures SortedBy(r, NameOf)
  {
    SortSorted(ss, NameOf);
    SortBy(ss, NameOf)
  }

  /** The row a lowercased pattern selects: `pattern in name.lower() or
      pattern in idx.lower()`. */
  predicate Selected(s: Student, pattern: string) {
    Contains(Lower(s.name), pattern) || Contains(Lower(s.indexNumber), pattern)
  }

  /** The rows the pattern selects, in their order. */
  function Matching(ss: seq<Student>, pattern: string): (r: seq<Student>)
    ensures forall s :: multiset(r)[s] == if Selected(s, pattern) then multiset(ss)[s] else 0
  {
    if ss == [] then []
    else
      assert ss == [ss[0]] + ss[1..];
      (if Selected(ss[0], pattern) then [ss[0]] else []) + Matching(ss[1..], pattern)
  }

  lemma {:induction false} MatchingSorted(ss: seq<Student>, pattern: string)
    requires SortedBy(ss, NameOf)
    ensures SortedBy(Matching(ss, pattern), NameOf)
  {
    if ss != [] {
      var rest := Matching(ss[1..], pattern);
      MatchingSorted(ss[1..], pattern);
      if Selected(ss[0], pattern) {
        var r := [ss[0]] + rest;
        forall i, j | 0 <= i < j < |r| ensures NameLe(NameOf(r[i]), NameOf(r[j])) {
          if i == 0 {
            var y := r[j];
            assert y in multiset(rest);
            assert y in multiset(ss[1..]);
            var k :| 0 <= k < |ss[1..]| && ss[1..][k] == y;
            assert ss[k + 1] == y;
          }
        }
      }
    }
  }

  /** The selector's text for each row: one entry per student, and selecting
      an entry finds that student's key again when the key is displayable. */
  function DisplayAll(ss: seq<Student>): (r: seq<string>)
    ensures |r| == |ss|
    ensures forall i :: 0 <= i < |ss| && Displayable(ss[i].Key()) ==> ParseStudent(r[i]) == Some(ss[i].Key())
  {
    ParseEachDisplay(ss);
    seq(|ss|, i requires 0 <= i < |ss| => Display(ss[i].Key()))
  }

  lemma ParseEachDisplay(ss: seq<Student>)
    ensures forall i :: 0 <= i < |ss| && Displayable(ss[i].Key()) ==> ParseStudent(Display(ss[i].Key())) == Some(ss[i].Key())
  {
    forall i | 0 <= i < |ss| && Displayable(ss[i].Key()) {
      ParseDisplay(ss[i].Key());
    }
  }

  /** `filter_students`: the display texts of the students, in name order,
      whose lowercased name or index number contains the lowercased text. */
  function FilterStudents(ss: seq<Student>, text: string): (r: seq<string>)
    ensures var m := Matching(ByName(ss), Lower(text));
            && SortedBy(m, NameOf)
            && (forall s :: multiset(m)[s] == if Selected(s, Lower(text)) then multiset(ss)[s] else 0)
            && r == DisplayAll(m)
  {
    MatchingSorted(ByName(ss), Lower(text));
    DisplayAll(Matching(ByName(ss), Lower(text)))
  }

  /** The head of a sorted permutation is in the original and is least. */
  lemma FirstIsLeast<T>(sorted: seq<T>, s: seq<T>, key: T -> string)
    requires sorted != [] && SortedBy(sorted, key) && multiset(sorted) == multiset(s)
    ensures sorted[0] in s
    ensures forall k :: 0 <= k < |s| ==> NameLe(key(sorted[0]), key(s[k]))
  {
    assert sorted[0] in multiset(s);
    forall k | 0 <= k < |s| ensures NameLe(key(sorted[0]), key(s[k])) {
      assert s[k] in multiset(sorted);
      var j :| 0 <= j < |sorted| && sorted[j] == s[k];
      if j == 0 {
        NameLeRefl(key(s[k]));
      }
    }
  }

  /** `load_students`: every student's display text in name order, and the
      first of them selected (`None` when the table is empty). */
  function LoadStudents(ss: seq<Student>): (r: (seq<string>, Option<StudentKey>))
    ensures r.0 == DisplayAll(ByName(ss))
    ensures r.1.None? <==> ss == []
    ensures r.1.Some? ==> exists i :: 0 <= i < |ss| && ss[i].Key() == r.1.value
    ensures r.1.Some? ==> forall i :: 0 <= i < |ss| ==> NameLe(r.1.value.name, ss[i].name)
  {
    var sorted := ByName(ss);
    if sorted == [] then
      assert |ss| == |multiset(ss)| == 0;
      (DisplayAll(sorted), None)
    else
      FirstIsLeast(sorted, ss, NameOf);
      (DisplayAll(sorted), Some(sorted[0].Key()))
  }

  lemma {:induction false} NameLeRefl(a: string)
    ensures NameLe(a, a)
  {
    if a != [] {
      NameLeRefl(a[1..]);
    }
  }

  /** Selecting any listed entry finds its student again: `parse_student`
      of the i-th display text is that student's key, when it is
      displayable. */
  lemma ListedEntriesParse(ss: seq<Student>, i: nat)
    requires i < |ByName(ss)| && Displayable(ByName(ss)[i].Key())
    ensures ParseStudent(LoadStudents(ss).0[i]) == Some(ByName(ss)[i].Key())
  {
    ParseDisplay(ByName(ss)[i].Key());
  }
}
