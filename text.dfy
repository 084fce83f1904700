/**
 * Strings as the application handles them: Python's `str.strip()` and
 * `str.lower()`, the `in` substring test, and the `"idx - name"` display
 * format of the student selector with `parse_student`, its inverse.
 */
module Text {
  import opened Wrappers

  /** The characters `str.strip()` removes: those for which Python's
      `str.isspace()` holds. */
  predicate IsSpace(c: char) {
    || c == ' ' || c == '\t' || c == '\n' || c == '\r' || c == '\U{B}' || c == '\U{C}'
    || '\U{1C}' <= c <= '\U{1F}' || c == '\U{85}' || c == '\U{A0}' || c == '\U{1680}'
    || '\U{2000}' <= c <= '\U{200A}' || c == '\U{2028}' || c == '\U{2029}'
    || c == '\U{202F}' || c == '\U{205F}' || c == '\U{3000}'
  }

  /** A string made of whitespace only (the empty string included). */
  predicate AllSpace(s: string) {
    forall i :: 0 <= i < |s| ==> IsSpace(s[i])
  }

  /** A string with no leading and no trailing whitespace. */
  predicate Trimmed(s: string) {
    s == [] || (!IsSpace(s[0]) && !IsSpace(s[|s| - 1]))
  }

  function TrimLeft(s: string): (r: string)
    ensures |r| <= |s| && (r != [] ==> r[|r| - 1] == s[|s| - 1])
    ensures r == [] || !IsSpace(r[0])
    ensures r == [] <==> forall i :: 0 <= i < |s| ==> IsSpace(s[i])
  {
    if s != [] && IsSpace(s[0]) then TrimLeft(s[1..]) else s
  }

  function TrimRight(s: string): (r: string)
    ensures |r| <= |s| && (r != [] ==> r[0] == s[0])
    ensures r == [] || !IsSpace(r[|r| - 1])
    ensures r == [] <==> forall i :: 0 <= i < |s| ==> IsSpace(s[i])
  {
    if s != [] && IsSpace(s[|s| - 1]) then TrimRight(s[..|s| - 1]) else s
  }

  /** `s.strip()`: the result has no whitespace at either end, a string
      that has none is left alone, and the result is empty exactly when `s`
      is all whitespace. */
  function Trim(s: string): (r: string)
    ensures Trimmed(r) && |r| <= |s|
    ensures Trimmed(s) ==> r == s
    ensures r == [] <==> forall i :: 0 <= i < |s| ==> IsSpace(s[i])
  {
    TrimRight(TrimLeft(s))
  }

  /** `TrimLeft` drops a whitespace prefix and keeps the rest. */
  lemma {:induction false} TrimLeftDrops(s: string) returns (a: nat)
    ensures a <= |s| && TrimLeft(s) == s[a..] && AllSpace(s[..a])
  {
    if s != [] && IsSpace(s[0]) {
      var a' := TrimLeftDrops(s[1..]);
      a := a' + 1;
      assert s[1..][a'..] == s[a..];
      assert forall i :: 1 <= i < a ==> s[..a][i] == s[1..][..a'][i - 1];
    } else {
      a := 0;
    }
  }

  /** `TrimRight` drops a whitespace suffix and keeps the rest. */
  lemma {:induction false} TrimRightDrops(s: string) returns (b: nat)
    ensures b <= |s| && TrimRight(s) == s[..b] && AllSpace(s[b..])
  {
    if s != [] && IsSpace(s[|s| - 1]) {
      var n := |s| - 1;
      b := TrimRightDrops(s[..n]);
      assert s[..n][..b] == s[..b];
      assert forall i :: 0 <= i < n - b ==> s[b..][i] == s[..n][b..][i];
    } else {
      b := |s|;
    }
  }

  /** `s.strip()` is the middle of `s`: what is left once a whitespace
      prefix and a whitespace suffix are removed, and (being trimmed) no
      more than that. */
  lemma TrimMiddle(s: string)
    ensures exists a, b :: 0 <= a <= b <= |s| && Trim(s) == s[a..b] && AllSpace(s[..a]) && AllSpace(s[b..])
  {
    var a := TrimLeftDrops(s);
    var u := s[a..];
    var b := TrimRightDrops(u);
    assert u[..b] == s[a..a + b];
    assert forall i :: 0 <= i < |u| - b ==> s[a + b..][i] == u[b..][i];
    assert Trim(s) == s[a..a + b] && AllSpace(s[..a]) && AllSpace(s[a + b..]);
  }

  /** `c.lower()` on the ASCII letters. */
  function LowerChar(c: char): char {
    if 'A' <= c <= 'Z' then (c as int + 32) as char else c
  }

  /** `s.lower()`: no capital letter is left, each capital becomes the same
      letter in lower case, and every other character is kept. */
  function Lower(s: string): (r: string)
    ensures |r| == |s|
    ensures forall i :: 0 <= i < |r| ==> !('A' <= r[i] <= 'Z')
    ensures forall i :: 0 <= i < |s| && 'A' <= s[i] <= 'Z' ==>
              'a' <= r[i] <= 'z' && r[i] as int - 'a' as int == s[i] as int - 'A' as int
    ensures forall i :: 0 <= i < |s| && !('A' <= s[i] <= 'Z') ==> r[i] == s[i]
  {
    seq(|s|, i requires 0 <= i < |s| => LowerChar(s[i]))
  }

  /** Lowering twice is lowering once. */
  lemma LowerIdempotent(s: string)
    ensures Lower(Lower(s)) == Lower(s)
  {
  }

  /** `pat` occurs in `s` starting at position `i`. */
  predicate OccursAt(s: string, pat: string, i: nat) {
    i + |pat| <= |s| && s[i..i + |pat|] == pat
  }

  /** Python's `pat in s`. */
  predicate Contains(s: string, pat: string) {
    exists i :: 0 <= i <= |s| && OccursAt(s, pat, i)
  }

  /** The separator of the display format. */
  const Sep: string := " - "

  /** The first occurrence of `pat` in `s` at or after `from`. */
  function FindFrom(s: string, pat: string, from: nat): (r: Option<nat>)
    decreases |s| - from
    ensures r.Some? ==> from <= r.value && OccursAt(s, pat, r.value)
    ensures r.Some? ==> forall j :: from <= j < r.value ==> !OccursAt(s, pat, j)
    ensures r.None? ==> forall j :: from <= j ==> !OccursAt(s, pat, j)
  {
    if from + |pat| > |s| then None
    else if OccursAt(s, pat, from) then Some(from)
    else FindFrom(s, pat, from + 1)
  }

  /** The first occurrence of `pat` in `s` is at `k` exactly when `pat`
      occurs at `k` and nowhere before. */
  lemma FindFirst(s: string, pat: string, k: nat)
    requires OccursAt(s, pat, k)
    requires forall j :: 0 <= j < k ==> !OccursAt(s, pat, j)
    ensures FindFrom(s, pat, 0) == Some(k)
  {
  }

  /** The key a student is selected by: (name, index number). */
  datatype StudentKey = StudentKey(name: string, indexNumber: string)

  /** `f"{idx} - {name}"`, the text shown in the student selector. */
  function Display(key: StudentKey): string {
    key.indexNumber + Sep + key.name
  }

  /** `parse_student`: split at the first `" - "`, strip both halves and
      return (name, index number); `None` when the text has no separator. */
  function ParseStudent(text: string): (r: Option<StudentKey>)
    ensures r.None? <==> !Contains(text, Sep)
    ensures r.Some? ==> Trimmed(r.value.name) && Trimmed(r.value.indexNumber)
  {
    match FindFrom(text, Sep, 0)
    case None => None
    case Some(k) => Some(StudentKey(Trim(text[k + |Sep|..]), Trim(text[..k])))
  }

  /** A key whose display text `parse_student` reads back: stripped fields,
      and an index number that neither contains `" - "` nor ends in `" -"`. */
  predicate Displayable(key: StudentKey) {
    && Trimmed(key.name) && Trimmed(key.indexNumber)
    && !Contains(key.indexNumber, Sep)
    && !(|key.indexNumber| >= 2 && key.indexNumber[|key.indexNumber| - 2..] == " -")
  }

  /** `parse_student` inverts the display format for displayable keys. */
  lemma {:induction false} ParseDisplay(key: StudentKey)
    requires Displayable(key)
    ensures ParseStudent(Display(key)) == Some(key)
  {
    var idx := key.indexNumber;
    var text := Display(key);
    var n := |idx|;
    assert text[..n] == idx;
    assert text[n + |Sep|..] == key.name;
    assert OccursAt(text, Sep, n);
    forall j | 0 <= j < n
      ensures !OccursAt(text, Sep, j)
    {
      if j + 3 <= n {
        assert text[j..j + 3] == idx[j..j + 3];
        assert !OccursAt(idx, Sep, j);
      } else if j == n - 1 {
        assert text[j] == idx[n - 1] && !IsSpace(idx[n - 1]);
        assert text[j..j + 3][0] != Sep[0];
      } else {
        assert text[j] == idx[n - 2] && text[j + 1] == idx[n - 1];
        assert idx[n - 2..] == [idx[n - 2], idx[n - 1]];
      }
    }
    FindFirst(text, Sep, n);
  }

  /** The format is ambiguous for an index number ending in `" -"`: the
      display of index `"A -"` and name `"Bob"` parses as index `"A"` and
      name `"- Bob"`. */
  lemma DisplayAmbiguous()
    ensures ParseStudent(Display(StudentKey("Bob", "A -"))) == Some(StudentKey("- Bob", "A"))
  {
    var text := Display(StudentKey("Bob", "A -"));
    assert text[0] == 'A' && text[1] == ' ' && text[2] == '-' && text[3] == ' ' && |text| == 9;
    assert OccursAt(text, Sep, 1) by {
      assert text[1..4] == Sep;
    }
    assert !OccursAt(text, Sep, 0) by {
      assert text[0..3][0] != Sep[0];
    }
    FindFirst(text, Sep, 1);
    var tail, head := text[4..], text[..1];
    assert tail == "- Bob";
    assert head == "A";
    assert Trimmed(tail) && Trimmed(head);
  }
}
