/**
 * The digest ordering: `jobs.sort(key=lambda x: x["Posted Date"], reverse=True)`,
 * a stable sort, newest posted date first, postings with equal dates kept in the
 * order they were found.
 */
module Digest {
  import opened Text
  import opened Jobs
  import Dates

  /** Non-increasing by posted date, comparing the date strings as Python does. */
  ghost predicate SortedDesc(s: seq<Posting>) {
    forall i, j :: 0 <= i < j < |s| ==> AtMost(s[j].postedDate, s[i].postedDate)
  }

  /** `[p]` if `p` is dated `d`, else nothing: one step of `WithDate`. */
  function Only(p: Posting, d: string): seq<Posting> {
    if p.postedDate == d then [p] else []
  }

  /** The postings dated `d`, in their order in `s`. */
  function WithDate(s: seq<Posting>, d: string): seq<Posting> {
    if |s| == 0 then [] else Only(s[0], d) + WithDate(s[1..], d)
  }

  lemma {:induction false} WithDateCons(h: Posting, t: seq<Posting>, d: string)
    ensures WithDate([h] + t, d) == Only(h, d) + WithDate(t, d)
  {
    assert ([h] + t)[0] == h;
    assert ([h] + t)[1..] == t;
  }

  lemma {:induction false} WithDateSnoc(s: seq<Posting>, x: Posting, d: string)
    ensures WithDate(s + [x], d) == WithDate(s, d) + Only(x, d)
    decreases |s|
  {
    if |s| == 0 {
      assert s + [x] == [x] + [];
      WithDateCons(x, [], d);
    } else {
      var t := s[1..];
      assert s + [x] == [s[0]] + (t + [x]);
      assert s == [s[0]] + t;
      WithDateSnoc(t, x, d);
      WithDateCons(s[0], t + [x], d);
      WithDateCons(s[0], t, d);
    }
  }

  /** Places `x` into a sorted run behind every posting dated the same day or
      later, and in front of the older ones. */
  function Insert(x: Posting, s: seq<Posting>): seq<Posting> {
    if |s| == 0 then [x]
    else if Less(s[0].postedDate, x.postedDate) then [x] + s
    else [s[0]] + Insert(x, s[1..])
  }

  /** The digest order: each posting in turn is placed behind those already placed
      that are dated the same day or later. */
  function SortDesc(s: seq<Posting>): seq<Posting>
    decreases |s|
  {
    if |s| == 0 then [] else Insert(s[|s| - 1], SortDesc(s[..|s| - 1]))
  }

  /** Inserting adds `x` and loses nothing. */
  lemma {:induction false} InsertPerm(x: Posting, s: seq<Posting>)
    ensures multiset(Insert(x, s)) == multiset(s) + multiset{x}
  {
    if |s| > 0 && !Less(s[0].postedDate, x.postedDate) {
      InsertPerm(x, s[1..]);
      assert s == [s[0]] + s[1..];
      assert Insert(x, s) == [s[0]] + Insert(x, s[1..]);
    }
  }

  /** The digest holds exactly the postings it was given: a permutation. */
  lemma {:induction false} SortDescPerm(s: seq<Posting>)
    ensures multiset(SortDesc(s)) == multiset(s)
    decreases |s|
  {
    if |s| > 0 {
      var init, x := s[..|s| - 1], s[|s| - 1];
      SortDescPerm(init);
      InsertPerm(x, SortDesc(init));
      assert SortDesc(s) == Insert(x, SortDesc(init));
      MultisetSnoc(s);
    }
  }

  lemma {:induction false} MultisetSnoc(s: seq<Posting>)
    requires |s| > 0
    ensures multiset(s) == multiset(s[..|s| - 1]) + multiset{s[|s| - 1]}
  {
    assert s == s[..|s| - 1] + [s[|s| - 1]];
  }

  lemma {:induction false} SortedTail(s: seq<Posting>)
    requires SortedDesc(s) && |s| > 0
    ensures SortedDesc(s[1..])
  {
    var t := s[1..];
    forall i, j | 0 <= i < j < |t| ensures AtMost(t[j].postedDate, t[i].postedDate) {
      assert t[i] == s[i + 1] && t[j] == s[j + 1];
    }
  }

  /** A posting dated no earlier than every posting of a sorted run, put in front
      of it, gives a sorted run. */
  lemma {:induction false} SortedCons(h: Posting, t: seq<Posting>)
    requires SortedDesc(t)
    requires forall j :: 0 <= j < |t| ==> AtMost(t[j].postedDate, h.postedDate)
    ensures SortedDesc([h] + t)
  {
    var r := [h] + t;
    forall i, j | 0 <= i < j < |r| ensures AtMost(r[j].postedDate, r[i].postedDate) {
      assert r[j] == t[j - 1];
      if i > 0 { assert r[i] == t[i - 1]; }
    }
  }

  lemma {:induction false} InsertSorted(x: Posting, s: seq<Posting>)
    requires SortedDesc(s)
    ensures SortedDesc(Insert(x, s))
  {
    if |s| == 0 {
      assert Insert(x, s) == [x];
    } else if Less(s[0].postedDate, x.postedDate) {
      forall j | 0 <= j < |s| ensures AtMost(s[j].postedDate, x.postedDate) {
        if j > 0 { assert AtMost(s[j].postedDate, s[0].postedDate); }
        AtMostTransitive(s[j].postedDate, s[0].postedDate, x.postedDate);
      }
      SortedCons(x, s);
    } else {
      var t := Insert(x, s[1..]);
      SortedTail(s);
      InsertSorted(x, s[1..]);
      InsertPerm(x, s[1..]);
      LessTrichotomy(s[0].postedDate, x.postedDate);
      forall j | 0 <= j < |t| ensures AtMost(t[j].postedDate, s[0].postedDate) {
        assert t[j] in multiset(t);
        if t[j] != x {
          assert t[j] in multiset(s[1..]);
          var k :| 0 <= k < |s[1..]| && s[1..][k] == t[j];
          assert s[k + 1] == t[j];
        }
      }
      SortedCons(s[0], t);
    }
  }

  /** In a sorted run whose head is dated before `d`, nothing is dated `d`. */
  lemma {:induction false} NoneLaterThanHead(s: seq<Posting>, d: string)
    requires SortedDesc(s) && |s| > 0 && Less(s[0].postedDate, d)
    ensures WithDate(s, d) == []
  {
    forall i | 0 <= i < |s| ensures s[i].postedDate != d {
      if i > 0 {
        if s[i].postedDate == s[0].postedDate {
        } else {
          assert AtMost(s[i].postedDate, s[0].postedDate);
          LessTransitive(s[i].postedDate, s[0].postedDate, d);
        }
      }
      LessIrreflexive(d);
    }
    NoneDated(s, d);
  }

  lemma {:induction false} NoneDated(s: seq<Posting>, d: string)
    requires forall i :: 0 <= i < |s| ==> s[i].postedDate != d
    ensures WithDate(s, d) == []
    decreases |s|
  {
    if |s| > 0 {
      NoneDated(s[1..], d);
    }
  }

  /** Inserting `x` leaves the run of every other date alone and puts `x` last in its own. */
  lemma {:induction false} InsertWithDate(x: Posting, s: seq<Posting>, d: string)
    requires SortedDesc(s)
    ensures WithDate(Insert(x, s), d) == WithDate(s, d) + Only(x, d)
  {
    if |s| == 0 {
      assert Insert(x, s) == [x] + [];
      WithDateCons(x, [], d);
    } else if Less(s[0].postedDate, x.postedDate) {
      assert Insert(x, s) == [x] + s;
      InFront(x, s, d);
    } else {
      var t := s[1..];
      var it := Insert(x, t);
      assert Insert(x, s) == [s[0]] + it;
      SortedTail(s);
      InsertWithDate(x, t, d);
      WithDateCons(s[0], it, d);
      assert s == [s[0]] + t;
      WithDateCons(s[0], t, d);
      var a, b, c := Only(s[0], d), WithDate(t, d), Only(x, d);
      assert a + (b + c) == (a + b) + c;
    }
  }

  /** `x` put in front of a sorted run of older postings comes last in its date's run. */
  lemma {:induction false} InFront(x: Posting, s: seq<Posting>, d: string)
    requires SortedDesc(s) && |s| > 0 && Less(s[0].postedDate, x.postedDate)
    ensures WithDate([x] + s, d) == WithDate(s, d) + Only(x, d)
  {
    WithDateCons(x, s, d);
    if x.postedDate == d {
      NoneLaterThanHead(s, d);
    }
  }

  /** The digest order is non-increasing by posted date. */
  lemma {:induction false} SortDescSorted(s: seq<Posting>)
    ensures SortedDesc(SortDesc(s))
    decreases |s|
  {
    if |s| > 0 {
      SortDescSorted(s[..|s| - 1]);
      InsertSorted(s[|s| - 1], SortDesc(s[..|s| - 1]));
    }
  }

  /** The digest order is stable: the postings of any one date keep their input order. */
  lemma {:induction false} SortDescStable(s: seq<Posting>, d: string)
    ensures WithDate(SortDesc(s), d) == WithDate(s, d)
    decreases |s|
  {
    if |s| > 0 {
      var init, x := s[..|s| - 1], s[|s| - 1];
      assert SortDesc(s) == Insert(x, SortDesc(init));
      SortDescSorted(init);
      SortDescStable(init, d);
      InsertWithDate(x, SortDesc(init), d);
      WithDateLast(s, d);
    }
  }

  /** The run of date `d` in `s` is that of all but the last posting, then the last if dated `d`. */
  lemma {:induction false} WithDateLast(s: seq<Posting>, d: string)
    requires |s| > 0
    ensures WithDate(s, d) == WithDate(s[..|s| - 1], d) + Only(s[|s| - 1], d)
  {
    WithDateSnoc(s[..|s| - 1], s[|s| - 1], d);
    assert s == s[..|s| - 1] + [s[|s| - 1]];
  }

  lemma {:induction false} WithDateMembers(s: seq<Posting>, d: string, p: Posting)
    ensures p in WithDate(s, d) <==> p in s && p.postedDate == d
    decreases |s|
  {
    if |s| > 0 {
      WithDateMembers(s[1..], d, p);
      assert s == [s[0]] + s[1..];
      WithDateCons(s[0], s[1..], d);
    }
  }

  /** The newest posting heads a sorted sequence, so two sorted sequences with the
      same per-date runs start with the same posting. */
  lemma {:induction false} SameHead(a: seq<Posting>, b: seq<Posting>)
    requires SortedDesc(a) && SortedDesc(b) && |a| > 0
    requires forall d :: WithDate(a, d) == WithDate(b, d)
    ensures |b| > 0 && a[0] == b[0]
  {
    var d0 := a[0].postedDate;
    assert WithDate(a, d0) != [];
    assert |b| > 0;
    var e0 := b[0].postedDate;
    WithDateMembers(a, e0, b[0]);
    WithDateMembers(b, e0, b[0]);
    assert WithDate(b, e0) != [];
    var j :| 0 <= j < |a| && a[j] == b[0];
    assert AtMost(e0, d0) by { if j > 0 { } }
    WithDateMembers(a, d0, a[0]);
    WithDateMembers(b, d0, a[0]);
    var k :| 0 <= k < |b| && b[k] == a[0];
    assert AtMost(d0, e0) by { if k > 0 { } }
    AtMostAntisymmetric(d0, e0);
    assert WithDate(a, d0)[0] == a[0];
    assert WithDate(b, d0)[0] == b[0];
  }


  /** A sorted sequence is fixed by its per-date runs: two sorted sequences with
      the same postings for every date are equal. So every stable sort that puts
      the newest first, Python's `list.sort` included, yields `SortDesc`. */
  lemma {:induction false} SortedUnique(a: seq<Posting>, b: seq<Posting>)
    requires SortedDesc(a) && SortedDesc(b)
    requires forall d :: WithDate(a, d) == WithDate(b, d)
    ensures a == b
    decreases |a|
  {
    if |a| == 0 {
      if |b| > 0 {
        WithDateMembers(b, b[0].postedDate, b[0]);
      }
    } else {
      SameHead(a, b);
      var h := a[0];
      forall d ensures WithDate(a[1..], d) == WithDate(b[1..], d) {
        var pre := Only(h, d);
        assert WithDate(a, d) == pre + WithDate(a[1..], d);
        assert WithDate(b, d) == pre + WithDate(b[1..], d);
        assert WithDate(a[1..], d) == WithDate(a, d)[|pre|..];
      }
      SortedTail(a);
      SortedTail(b);
      SortedUnique(a[1..], b[1..]);
      assert a == [h] + a[1..] && b == [h] + b[1..];
    }
  }

  /** Read with the calendar: in the digest order no posting comes after one
      posted on an earlier day. */
  lemma {:induction false} NewestFirst(s: seq<Posting>, i: int, j: int, a: Dates.Date, b: Dates.Date)
    requires 0 <= i < j < |SortDesc(s)|
    requires Dates.InRange(a) && Dates.InRange(b)
    requires SortDesc(s)[i].postedDate == Dates.Format(a) && SortDesc(s)[j].postedDate == Dates.Format(b)
    ensures !Dates.Before(a, b)
  {
    SortDescSorted(s);
    Dates.FormatOrder(a, b);
    LessAsymmetric(Dates.Format(a), Dates.Format(b));
    LessIrreflexive(Dates.Format(a));
  }
}
