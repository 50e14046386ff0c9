/** The common working window of several people (scheduling/utils.py):
    the latest start and the earliest end of a list of (start, end) times,
    or nothing when that window is empty. */
module Intersection {
  import opened Base

  /** One `(start_time, end_time)` pair. Nothing forces start < end. */
  datatype Range = Range(start: Time, end: Time)

  /** Minute `t` lies in the half-open window [start, end). */
  predicate Covers(r: Range, t: int) {
    r.start <= t < r.end
  }

  /** `max(s for s, _ in time_ranges)`. */
  function MaxStart(rs: seq<Range>): (m: Time)
    requires |rs| > 0
    ensures forall i :: 0 <= i < |rs| ==> rs[i].start <= m
    ensures exists i :: 0 <= i < |rs| && rs[i].start == m
  {
    if |rs| == 1 then rs[0].start
    else
      var m := MaxStart(rs[1..]);
      assert forall i :: 1 <= i < |rs| ==> rs[i] == rs[1..][i - 1];
      if rs[0].start >= m then rs[0].start else m
  }

  /** `min(e for _, e in time_ranges)`. */
  function MinEnd(rs: seq<Range>): (m: Time)
    requires |rs| > 0
    ensures forall i :: 0 <= i < |rs| ==> m <= rs[i].end
    ensures exists i :: 0 <= i < |rs| && rs[i].end == m
  {
    if |rs| == 1 then rs[0].end
    else
      var m := MinEnd(rs[1..]);
      assert forall i :: 1 <= i < |rs| ==> rs[i] == rs[1..][i - 1];
      if rs[0].end <= m then rs[0].end else m
  }

  /** `get_intersection`: `None` stands for the pair `(None, None)`. */
  function GetIntersection(rs: seq<Range>): (r: Option<Range>)
    ensures |rs| == 0 ==> r == None
    ensures |rs| > 0 ==> (r == None <==> MaxStart(rs) >= MinEnd(rs))
    ensures r.Some? ==> r.value.start == MaxStart(rs) && r.value.end == MinEnd(rs)
    ensures r.Some? ==> r.value.start < r.value.end
    ensures r.Some? ==> forall i :: 0 <= i < |rs| ==>
                          rs[i].start <= r.value.start && r.value.end <= rs[i].end
  {
    if |rs| == 0 then None
    else
      var latestStart := MaxStart(rs);
      var earliestEnd := MinEnd(rs);
      if latestStart >= earliestEnd then None else Some(Range(latestStart, earliestEnd))
  }

  /** `intersection_time`: the second copy, which has no empty-list case; on an
      empty list Python's `max` raises, so a non-empty list is its precondition. */
  function IntersectionTime(rs: seq<Range>): (r: Option<Range>)
    requires |rs| > 0
    ensures r == GetIntersection(rs)
  {
    var latestStart := MaxStart(rs);
    var earliestEnd := MinEnd(rs);
    if latestStart >= earliestEnd then None else Some(Range(latestStart, earliestEnd))
  }

  predicate InWindow(w: Option<Range>, t: int) {
    w.Some? && Covers(w.value, t)
  }

  /** The intersection is exactly the set of minutes every input covers:
      a minute lies in the result if and only if the list is non-empty and
      the minute lies in every input range. */
  lemma CommonWindow(rs: seq<Range>, t: int)
    ensures InWindow(GetIntersection(rs), t)
        <==> |rs| > 0 && forall i :: 0 <= i < |rs| ==> Covers(rs[i], t)
  {
    if |rs| > 0 && forall i :: 0 <= i < |rs| ==> Covers(rs[i], t) {
      var a :| 0 <= a < |rs| && rs[a].start == MaxStart(rs);
      var b :| 0 <= b < |rs| && rs[b].end == MinEnd(rs);
      assert Covers(rs[a], t) && Covers(rs[b], t);
    }
  }

  /** Any window that lies inside every input lies inside the intersection:
      the result is the largest common window. */
  lemma LargestCommonWindow(rs: seq<Range>, w: Range)
    requires |rs| > 0 && w.start < w.end
    requires forall i :: 0 <= i < |rs| ==> rs[i].start <= w.start && w.end <= rs[i].end
    ensures GetIntersection(rs).Some?
    ensures GetIntersection(rs).value.start <= w.start && w.end <= GetIntersection(rs).value.end
  {
    var a :| 0 <= a < |rs| && rs[a].start == MaxStart(rs);
    var b :| 0 <= b < |rs| && rs[b].end == MinEnd(rs);
    assert MaxStart(rs) <= w.start && w.end <= MinEnd(rs);
  }

  lemma MaxStartOfSameElements(a: seq<Range>, b: seq<Range>)
    requires |a| > 0 && |b| > 0
    requires forall x :: x in a ==> x in b
    ensures MaxStart(a) <= MaxStart(b)
  {
    var i :| 0 <= i < |a| && a[i].start == MaxStart(a);
    assert a[i] in b;
  }

  lemma MinEndOfSameElements(a: seq<Range>, b: seq<Range>)
    requires |a| > 0 && |b| > 0
    requires forall x :: x in a ==> x in b
    ensures MinEnd(b) <= MinEnd(a)
  {
    var i :| 0 <= i < |a| && a[i].end == MinEnd(a);
    assert a[i] in b;
  }

  /** The order of the input ranges does not matter. */
  lemma OrderIndependent(a: seq<Range>, b: seq<Range>)
    requires multiset(a) == multiset(b)
    ensures GetIntersection(a) == GetIntersection(b)
  {
    assert |a| == |multiset(a)| == |b|;
    if |a| > 0 {
      assert forall x :: x in a <==> x in multiset(a);
      assert forall x :: x in b <==> x in multiset(b);
      MaxStartOfSameElements(a, b);
      MaxStartOfSameElements(b, a);
      MinEndOfSameElements(a, b);
      MinEndOfSameElements(b, a);
    }
  }
}
