/** Shared vocabulary of the model: optional values, times of day, dates,
    row identifiers and Python's whitespace stripping. */
module Base {

  datatype Option<T> = None | Some(value: T)

  /** A `datetime.time` parsed with "%H:%M", as minutes since midnight. */
  type Time = t: int | 0 <= t < 1440

  /** A `datetime.date` as its proleptic Gregorian ordinal (`date.toordinal()`):
      day 1 is 0001-01-01, which was a Monday. */
  type Day = int

  /** `date.weekday()`: 0 for Monday up to 6 for Sunday. */
  function Weekday(d: Day): (w: int)
    ensures 0 <= w < 7
    ensures (d - w) % 7 == 1 % 7
  {
    (d - 1) % 7
  }

  /** A primary key larger than every key in the table. Unlike a database
      sequence it does not remember deleted keys, so one may be handed out
      again. */
  function FreshId(ids: seq<nat>): (r: nat)
    ensures r >= 1
    ensures forall i :: 0 <= i < |ids| ==> ids[i] < r
  {
    if |ids| == 0 then 1
    else
      var rest := FreshId(ids[1..]);
      assert forall i :: 1 <= i < |ids| ==> ids[i] == ids[1..][i - 1];
      if ids[0] < rest then rest else ids[0] + 1
  }

  /** The rows of `s` that `keep` accepts, in their original order: the model
      of `.filter(...)` and of `.exclude(...)` on a table. */
  function Filter<T(!new)>(s: seq<T>, keep: T -> bool): (r: seq<T>)
    ensures |r| <= |s|
    ensures forall x :: x in r <==> x in s && keep(x)
    ensures |r| == |s| <==> forall i :: 0 <= i < |s| ==> keep(s[i])
    ensures (forall i :: 0 <= i < |s| ==> keep(s[i])) ==> r == s
  {
    if |s| == 0 then []
    else
      var rest := Filter(s[..|s| - 1], keep);
      assert s == s[..|s| - 1] + [s[|s| - 1]];
      assert forall i :: 0 <= i < |s| - 1 ==> s[i] == s[..|s| - 1][i];
      if keep(s[|s| - 1]) then rest + [s[|s| - 1]] else rest
  }

  /** When `keep` rejects exactly one row, the filter removes that row alone. */
  lemma {:induction false} FilterRemovesOne<T(!new)>(s: seq<T>, keep: T -> bool, i: nat)
    requires i < |s| && !keep(s[i])
    requires forall k :: 0 <= k < |s| && k != i ==> keep(s[k])
    ensures Filter(s, keep) == s[..i] + s[i + 1..]
  {
    var n := |s| - 1;
    assert s == s[..n] + [s[n]];
    if i == n {
      assert Filter(s[..n], keep) == s[..n];
    } else {
      FilterRemovesOne(s[..n], keep, i);
      assert s[..n][..i] == s[..i];
      assert s[..n][i + 1..] + [s[n]] == s[i + 1..];
    }
  }

  /** The set of values a sequence holds. */
  function Elements<T(!new)>(s: seq<T>): (r: set<T>)
    ensures forall x :: x in r <==> x in s
  {
    set x | x in s
  }

  lemma ElementsAppend<T(!new)>(s: seq<T>, x: T)
    ensures Elements(s + [x]) == Elements(s) + {x}
  {
  }

  predicate NoDuplicates<T(==)>(s: seq<T>) {
    forall i, j :: 0 <= i < j < |s| ==> s[i] != s[j]
  }

  /** A sequence has as many distinct values as elements exactly when it has
      no duplicates. */
  lemma {:induction false} ElementsCard<T(!new)>(s: seq<T>)
    ensures |Elements(s)| <= |s|
    ensures |Elements(s)| == |s| <==> NoDuplicates(s)
  {
    if |s| > 0 {
      var prefix := s[..|s| - 1];
      var last := s[|s| - 1];
      assert s == prefix + [last];
      ElementsCard(prefix);
      ElementsAppend(prefix, last);
      if last in prefix {
        assert Elements(s) == Elements(prefix);
        var j :| 0 <= j < |prefix| && prefix[j] == last;
        assert s[j] == s[|s| - 1];
      } else {
        assert |Elements(s)| == |Elements(prefix)| + 1;
        if NoDuplicates(s) {
          assert NoDuplicates(prefix) by {
            forall i, j | 0 <= i < j < |prefix| ensures prefix[i] != prefix[j] {
              assert prefix[i] == s[i] && prefix[j] == s[j];
            }
          }
        }
        if NoDuplicates(prefix) {
          forall i, j | 0 <= i < j < |s| ensures s[i] != s[j] {
            if j < |s| - 1 { assert s[i] == prefix[i] && s[j] == prefix[j]; }
            else { assert s[i] in prefix; }
          }
        }
      }
    }
  }

  /** A subset as large as its superset is the superset. */
  lemma SubsetEqualCard<T>(a: set<T>, b: set<T>)
    requires a <= b && |a| == |b|
    ensures a == b
  {
    assert |b - a| == |b| - |a|;
  }

  /** The numbers 1..n. */
  function RangeSet(n: nat): (s: set<int>)
    ensures |s| == n
    ensures forall v :: v in s <==> 1 <= v <= n
  {
    if n == 0 then {}
    else
      var s := RangeSet(n - 1);
      assert n !in s;
      s + {n}
  }

  /** `str.isspace()` for one character: the characters Python's `str.strip()`
      removes when called without arguments. */
  predicate IsSpace(c: char) {
    || c == '\t' || c == '\n' || c == '\U{B}' || c == '\U{C}' || c == '\r'
    || ('\U{1C}' <= c <= '\U{1F}') || c == ' ' || c == '\U{85}' || c == '\U{A0}'
    || c == '\U{1680}' || ('\U{2000}' <= c <= '\U{200A}') || c == '\U{2028}'
    || c == '\U{2029}' || c == '\U{202F}' || c == '\U{205F}' || c == '\U{3000}'
  }

  /** Number of whitespace characters at the front of `s`. */
  function LeadingSpace(s: string): (k: nat)
    ensures k <= |s|
    ensures forall m :: 0 <= m < k ==> IsSpace(s[m])
    ensures k < |s| ==> !IsSpace(s[k])
  {
    if |s| == 0 || !IsSpace(s[0]) then 0
    else
      var k := LeadingSpace(s[1..]);
      assert forall m :: 1 <= m <= k ==> s[m] == s[1..][m - 1];
      1 + k
  }

  /** Length of `s` once the whitespace at its end is dropped. */
  function TrailingCut(s: string): (j: nat)
    ensures j <= |s|
    ensures forall m :: j <= m < |s| ==> IsSpace(s[m])
    ensures 0 < j ==> !IsSpace(s[j - 1])
  {
    if |s| == 0 || !IsSpace(s[|s| - 1]) then |s|
    else
      var j := TrailingCut(s[..|s| - 1]);
      assert forall m :: j <= m < |s| - 1 ==> s[m] == s[..|s| - 1][m];
      j
  }

  /** `str.strip()`: `s` without its leading and trailing whitespace. */
  function Strip(s: string): (r: string)
    ensures exists i, j :: 0 <= i <= j <= |s| && r == s[i..j]
                           && (forall m :: 0 <= m < i ==> IsSpace(s[m]))
                           && (forall m :: j <= m < |s| ==> IsSpace(s[m]))
    ensures |r| > 0 ==> !IsSpace(r[0]) && !IsSpace(r[|r| - 1])
    ensures (forall m :: 0 <= m < |s| ==> IsSpace(s[m])) <==> r == []
  {
    var i := LeadingSpace(s);
    if i == |s| then
      assert s[i..i] == [];
      []
    else
      var j := TrailingCut(s);
      s[i..j]
  }

  /** Stripping twice is stripping once. */
  lemma {:induction false} StripIdempotent(s: string)
    ensures Strip(Strip(s)) == Strip(s)
  {
    var r := Strip(s);
    if |r| > 0 {
      assert LeadingSpace(r) == 0;
      assert TrailingCut(r) == |r|;
      assert r[0..|r|] == r;
    }
  }
}
