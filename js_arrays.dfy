/**
 * The JavaScript array operations the settings editors rely on: `splice` with its clamping of the
 * start index (a negative start counts from the end), and `sort` with no comparator, which orders
 * elements by their string forms.
 */
module JsArrays {
  import opened JsStrings

  /** The index `splice` starts at: a negative `start` counts back from the end; both ends clamp. */
  function SpliceStart(len: nat, start: int): (a: nat)
    ensures a <= len
    ensures 0 <= start <= len ==> a == start
    ensures start > len ==> a == len
    ensures start < 0 ==> a == if len + start < 0 then 0 else len + start
  {
    if start < 0 then (if len + start < 0 then 0 else len + start)
    else if start > len then len
    else start
  }

  /**
   * `s.splice(start, deleteCount, ...items)`, as the array it leaves behind: up to `deleteCount`
   * elements from the actual start are removed and `items` put in their place.
   */
  function Splice<T>(s: seq<T>, start: int, deleteCount: int, items: seq<T>): (r: seq<T>)
    ensures var a := SpliceStart(|s|, start);
      |items| + a <= |r| <= |s| + |items| &&
      r[..a] == s[..a] && r[a..a + |items|] == items && r[a + |items|..] == s[|s| - (|r| - a - |items|)..]
    ensures deleteCount <= 0 ==> |r| == |s| + |items|
  {
    var a := SpliceStart(|s|, start);
    var d := if deleteCount < 0 then 0 else if deleteCount > |s| - a then |s| - a else deleteCount;
    s[..a] + items + s[a + d..]
  }

  /** `s.splice(i, 1)` at a valid index removes exactly the element at `i`. */
  lemma SpliceRemove<T>(s: seq<T>, i: nat)
    requires i < |s|
    ensures Splice(s, i, 1, []) == s[..i] + s[i + 1..]
    ensures |Splice(s, i, 1, [])| == |s| - 1
  {
  }

  /** `s.splice(i, 0, x)` with `i` at most the length puts `x` at index `i` and shifts the rest up. */
  lemma SpliceInsert<T>(s: seq<T>, i: nat, x: T)
    requires i <= |s|
    ensures Splice(s, i, 0, [x]) == s[..i] + [x] + s[i..]
  {
  }

  /** The list without the element at `i`, the others kept in order. */
  function RemoveAt<T>(s: seq<T>, i: nat): (r: seq<T>)
    requires i < |s|
    ensures |r| == |s| - 1
    ensures forall k :: 0 <= k < i ==> r[k] == s[k]
    ensures forall k :: i <= k < |r| ==> r[k] == s[k + 1]
  {
    s[..i] + s[i + 1..]
  }

  /** The list with `x` placed at index `i`, the elements from `i` on moved up by one. */
  function InsertAt<T>(s: seq<T>, i: nat, x: T): (r: seq<T>)
    requires i <= |s|
    ensures |r| == |s| + 1 && r[i] == x
    ensures forall k :: 0 <= k < i ==> r[k] == s[k]
    ensures forall k :: i < k < |r| ==> r[k] == s[k - 1]
  {
    s[..i] + [x] + s[i..]
  }

  /** Removing the element at `i` and putting it back at `i` restores the list, and the other way round. */
  lemma {:induction false} RemoveInsertInverse<T>(s: seq<T>, i: nat, x: T)
    requires i < |s|
    ensures InsertAt(RemoveAt(s, i), i, s[i]) == s
    ensures RemoveAt(InsertAt(s, i, x), i) == s
  {
    var r := InsertAt(RemoveAt(s, i), i, s[i]);
    assert forall k :: 0 <= k < |s| ==> r[k] == s[k];
    var t := RemoveAt(InsertAt(s, i, x), i);
    assert forall k :: 0 <= k < |s| ==> t[k] == s[k];
  }

  /** `s` with the elements at `i` and `j` exchanged. */
  function Swap<T>(s: seq<T>, i: nat, j: nat): (r: seq<T>)
    requires i < |s| && j < |s|
    ensures |r| == |s| && r[i] == s[j] && r[j] == s[i]
    ensures forall k :: 0 <= k < |s| && k != i && k != j ==> r[k] == s[k]
    ensures multiset(r) == multiset(s)
  {
    s[i := s[j]][j := s[i]]
  }

  /** `a` comes no later than `b` in the order of their characters (a prefix comes first). */
  predicate LexLessEq(a: Str, b: Str)
  {
    a == [] || (b != [] && (a[0] < b[0] || (a[0] == b[0] && LexLessEq(a[1..], b[1..]))))
  }

  /** Any two strings are ordered one way or the other. */
  lemma {:induction false} LexTotal(a: Str, b: Str)
    ensures LexLessEq(a, b) || LexLessEq(b, a)
  {
    if a != [] && b != [] && a[0] == b[0] {
      LexTotal(a[1..], b[1..]);
    }
  }

  /** Adjacent elements are in order of their string forms. */
  predicate SortedBy<T>(s: seq<T>, str: T -> Str)
  {
    forall i :: 0 <= i < |s| - 1 ==> LexLessEq(str(s[i]), str(s[i + 1]))
  }

  /** Puts `x` into a sorted `t` after every element whose string form is not greater than its own. */
  function InsertSorted<T>(x: T, t: seq<T>, str: T -> Str): (r: seq<T>)
    requires SortedBy(t, str)
    ensures SortedBy(r, str)
    ensures multiset(r) == multiset(t) + multiset{x}
    ensures |r| == |t| + 1 && (r[0] == x || (t != [] && r[0] == t[0]))
  {
    if t == [] then [x]
    else if !LexLessEq(str(t[0]), str(x)) then
      LexTotal(str(t[0]), str(x));
      [x] + t
    else
      var rest := InsertSorted(x, t[1..], str);
      assert t == [t[0]] + t[1..];
      [t[0]] + rest
  }

  /** `s.sort()` with no comparator: a permutation of `s` in order of the elements' string forms. */
  function DefaultSort<T>(s: seq<T>, str: T -> Str): (r: seq<T>)
    ensures SortedBy(r, str)
    ensures multiset(r) == multiset(s)
    ensures |r| == |s|
  {
    if s == [] then []
    else
      assert s == s[..|s| - 1] + [s[|s| - 1]];
      InsertSorted(s[|s| - 1], DefaultSort(s[..|s| - 1], str), str)
  }
}
