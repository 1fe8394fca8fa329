/**
 * The few Python built-ins on strings and lists that the build script relies on,
 * each stated over Dafny sequences (a Python `str` is a `seq<char>`, a list of
 * lines is a `seq<string>`).  Where Python raises `ValueError` (an absent element
 * for `index` and `remove`), the function requires the element to be present:
 * every call in the script is made only after that has been established.
 */
module PyBuiltins {

  datatype Option<+T> = None | Some(value: T)

  /** `pat` occurs in `s` starting at position `i`. */
  ghost predicate OccursAt<T>(pat: seq<T>, s: seq<T>, i: int)
  {
    0 <= i && i + |pat| <= |s| && s[i..i + |pat|] == pat
  }

  /** Python's `pat in s` on strings: substring search. */
  function Contains<T(==)>(s: seq<T>, pat: seq<T>): bool
    decreases |s|
  {
    if pat <= s then true
    else if |s| == 0 then false
    else Contains(s[1..], pat)
  }

  /** The search answers exactly "is there a position where `pat` occurs". */
  lemma {:induction false} ContainsIff<T>(s: seq<T>, pat: seq<T>)
    ensures Contains(s, pat) <==> exists i :: OccursAt(pat, s, i)
    decreases |s|
  {
    if pat <= s {
      assert OccursAt(pat, s, 0);
    } else if |s| == 0 {
      assert |pat| > 0;
    } else {
      ContainsIff(s[1..], pat);
      if exists i :: OccursAt(pat, s, i) {
        var i :| OccursAt(pat, s, i);
        if i == 0 {
          assert false;
        }
        assert s[1..][i - 1..i - 1 + |pat|] == s[i..i + |pat|];
        assert OccursAt(pat, s[1..], i - 1);
      }
      if exists j :: OccursAt(pat, s[1..], j) {
        var j :| OccursAt(pat, s[1..], j);
        assert s[1..][j..j + |pat|] == s[j + 1..j + 1 + |pat|];
        assert OccursAt(pat, s, j + 1);
      }
    }
  }

  /** A pattern longer than the text is never found in it. */
  lemma {:induction false} ContainsNotShorter<T>(s: seq<T>, pat: seq<T>)
    requires |s| < |pat|
    ensures !Contains(s, pat)
    decreases |s|
  {
    if |s| > 0 {
      ContainsNotShorter(s[1..], pat);
    }
  }

  /** A non-empty pattern found in `s` brings its first element into `s`. */
  lemma ContainsFirst<T>(s: seq<T>, pat: seq<T>)
    requires |pat| > 0 && Contains(s, pat)
    ensures pat[0] in s
  {
    ContainsIff(s, pat);
    var i :| OccursAt(pat, s, i);
    assert s[i..i + |pat|][0] == s[i];
  }

  /**
   * Python's `s.index(x)` on a list, or on a string with a one-character
   * argument: the position of the first element equal to `x`.
   */
  function IndexOf<T(==)>(s: seq<T>, x: T): (i: nat)
    requires x in s
    ensures i < |s| && s[i] == x && x !in s[..i]
  {
    if s[0] == x then 0
    else
      var j := IndexOf(s[1..], x);
      assert s[..j + 1] == [s[0]] + s[1..][..j];
      j + 1
  }

  /** The first occurrence is the only position with no earlier `x`. */
  lemma IndexOfUnique<T>(s: seq<T>, x: T, i: nat)
    requires i < |s| && s[i] == x && x !in s[..i]
    ensures IndexOf(s, x) == i
  {
    var k := IndexOf(s, x);
    assert forall j | 0 <= j < i :: s[..i][j] == s[j];
    assert forall j | 0 <= j < k :: s[..k][j] == s[j];
  }

  /** The position of the last element equal to `x` (Python's `s.rindex(x)`). */
  function LastIndexOf<T(==)>(s: seq<T>, x: T): (i: nat)
    requires x in s
    ensures i < |s| && s[i] == x && x !in s[i + 1..]
  {
    if s[|s| - 1] == x then |s| - 1
    else
      assert s == s[..|s| - 1] + [s[|s| - 1]];
      var j := LastIndexOf(s[..|s| - 1], x);
      assert s[j + 1..] == s[..|s| - 1][j + 1..] + [s[|s| - 1]];
      j
  }

  /** The last occurrence is the only position with no later `x`. */
  lemma LastIndexOfUnique<T>(s: seq<T>, x: T, i: nat)
    requires i < |s| && s[i] == x && x !in s[i + 1..]
    ensures LastIndexOf(s, x) == i
  {
    var k := LastIndexOf(s, x);
    assert forall j | i < j < |s| :: s[i + 1..][j - i - 1] == s[j];
    assert forall j | k < j < |s| :: s[k + 1..][j - k - 1] == s[j];
  }

  /** Python's `list.remove(x)`: delete the first element equal to `x`. */
  function Remove<T(==)>(s: seq<T>, x: T): (r: seq<T>)
    requires x in s
    ensures |r| == |s| - 1
    ensures r == s[..IndexOf(s, x)] + s[IndexOf(s, x) + 1..]
  {
    if s[0] == x then s[1..]
    else
      var rest := Remove(s[1..], x);
      assert s[..IndexOf(s, x)] == [s[0]] + s[1..][..IndexOf(s[1..], x)];
      [s[0]] + rest
  }

  /**
   * Python's `list.insert(i, x)` for a non-negative index: `x` lands at
   * position `i`, or at the end when `i` is past it.
   */
  function Insert<T>(s: seq<T>, i: nat, x: T): (r: seq<T>)
    ensures |r| == |s| + 1
    ensures var k := if i < |s| then i else |s|;
      r[k] == x && r[..k] == s[..k] && r[k + 1..] == s[k..]
  {
    if i < |s| then s[..i] + [x] + s[i..] else s + [x]
  }

  /**
   * Removing the first `x` and inserting `y` where it stood is the same as
   * overwriting that one position: nothing else moves.
   */
  lemma RemoveThenInsert<T>(s: seq<T>, x: T, y: T)
    requires x in s
    ensures Insert(Remove(s, x), IndexOf(s, x), y) == s[IndexOf(s, x) := y]
  {
    var k := IndexOf(s, x);
    var r := Insert(Remove(s, x), k, y);
    assert k < |Remove(s, x)| || k == |s| - 1;
    forall j | 0 <= j < |s|
      ensures r[j] == s[k := y][j]
    {
      if j < k {
        assert r[j] == r[..k][j];
      } else if j > k {
        assert r[j] == r[k + 1..][j - k - 1];
      }
    }
  }

  /** Overwriting a position with the value already there changes nothing. */
  lemma UpdateWithSameValue<T>(s: seq<T>, i: nat)
    requires i < |s|
    ensures s[i := s[i]] == s
  {
  }

  /** Overwriting one position leaves every later position as it was. */
  lemma UpdateKeepsLater<T>(s: seq<T>, i: nat, x: T)
    requires i < |s|
    ensures |s[i := x]| == |s|
    ensures forall j | i < j < |s| :: s[i := x][j] == s[j]
  {
  }

  /** Overwriting the element between two slices replaces just that element. */
  lemma UpdateBetween<T>(before: seq<T>, x: T, after: seq<T>, y: T)
    ensures (before + [x] + after)[|before| := y] == before + [y] + after
  {
    var s := (before + [x] + after)[|before| := y];
    assert forall j | 0 <= j < |s| :: s[j] == (before + [y] + after)[j];
  }

  /** A sequence is its elements before `i`, the one at `i`, and those after. */
  lemma CutAt<T>(s: seq<T>, i: nat)
    requires i < |s|
    ensures s == s[..i] + [s[i]] + s[i + 1..]
  {
  }

  /** Python's `s.split(sep)` with an explicit one-element separator. */
  function Split<T(==)>(s: seq<T>, sep: T): (parts: seq<seq<T>>)
    ensures |parts| >= 1
    decreases |s|
  {
    if sep in s then
      var i := IndexOf(s, sep);
      [s[..i]] + Split(s[i + 1..], sep)
    else [s]
  }

  /** Python's `sep.join(parts)`, the inverse of `Split`. */
  function Join<T>(parts: seq<seq<T>>, sep: T): seq<T>
    requires |parts| >= 1
  {
    if |parts| == 1 then parts[0] else parts[0] + [sep] + Join(parts[1..], sep)
  }

  /** Splitting yields one part more than there are separators. */
  lemma {:induction false} SplitLength<T>(s: seq<T>, sep: T)
    ensures |Split(s, sep)| == multiset(s)[sep] + 1
    decreases |s|
  {
    if sep in s {
      var i := IndexOf(s, sep);
      CutAt(s, i);
      assert multiset(s) == multiset(s[..i]) + multiset{sep} + multiset(s[i + 1..]);
      SplitLength(s[i + 1..], sep);
    }
  }

  /** No part of a split holds the separator. */
  lemma {:induction false} SplitPartsFree<T>(s: seq<T>, sep: T)
    ensures forall k | 0 <= k < |Split(s, sep)| :: sep !in Split(s, sep)[k]
    decreases |s|
  {
    if sep in s {
      var i := IndexOf(s, sep);
      SplitPartsFree(s[i + 1..], sep);
    }
  }

  /** Joining a part in front of at least one more part puts a separator between them. */
  lemma JoinCons<T>(head: seq<T>, tail: seq<seq<T>>, sep: T)
    requires |tail| >= 1
    ensures Join([head] + tail, sep) == head + [sep] + Join(tail, sep)
  {
    assert ([head] + tail)[1..] == tail;
  }

  /** Joining the parts of a split gives the original sequence back. */
  lemma {:induction false} JoinSplit<T>(s: seq<T>, sep: T)
    ensures Join(Split(s, sep), sep) == s
    decreases |s|
  {
    if sep in s {
      var i := IndexOf(s, sep);
      var rest := s[i + 1..];
      var tail := Split(rest, sep);
      assert Split(s, sep) == [s[..i]] + tail;
      JoinSplit(rest, sep);
      JoinCons(s[..i], tail, sep);
      CutAt(s, i);
    }
  }

  /** Splitting a join of separator-free parts gives the parts back. */
  lemma {:induction false} SplitJoin<T>(parts: seq<seq<T>>, sep: T)
    requires |parts| >= 1
    requires forall k | 0 <= k < |parts| :: sep !in parts[k]
    ensures Split(Join(parts, sep), sep) == parts
    decreases |parts|
  {
    if |parts| > 1 {
      var rest := Join(parts[1..], sep);
      var s := parts[0] + [sep] + rest;
      assert parts == [parts[0]] + parts[1..];
      JoinCons(parts[0], parts[1..], sep);
      assert s[|parts[0]|] == sep;
      assert s[..|parts[0]|] == parts[0];
      IndexOfUnique(s, sep, |parts[0]|);
      assert s[|parts[0]| + 1..] == rest;
      SplitJoin(parts[1..], sep);
    }
  }
}
