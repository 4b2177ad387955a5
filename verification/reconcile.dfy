/**
 * One run of the tracker (`main`): decide which fetched postings are new or
 * re-dated against the record loaded at the start, and only when there are any,
 * hand them to the digest, fold the whole fetch into the record and write it back.
 */
module Reconcile {
  import opened Base
  import opened Jobs
  import Store
  import Digest

  /** A posting is reported when its key is unknown to the record, or known under
      a different posted date. The URL and status play no part. */
  predicate IsChanged(p: Posting, prior: map<string, Entry>) {
    p.key !in prior || p.postedDate != prior[p.key].postedDate
  }

  /** The first loop of `main`: the reported postings, in fetch order, each judged
      against the record as it was loaded. */
  function Changed(recent: seq<Posting>, prior: map<string, Entry>): seq<Posting>
    decreases |recent|
  {
    if |recent| == 0 then []
    else
      var p := recent[|recent| - 1];
      Changed(recent[..|recent| - 1], prior) + (if IsChanged(p, prior) then [p] else [])
  }

  /** `r` is the sub-sequence of `s` at the strictly increasing positions `idx`. */
  ghost predicate PicksAt(r: seq<Posting>, s: seq<Posting>, idx: seq<nat>) {
    && |idx| == |r|
    && (forall t :: 0 <= t < |idx| ==> idx[t] < |s| && r[t] == s[idx[t]])
    && (forall t, u :: 0 <= t < u < |idx| ==> idx[t] < idx[u])
  }

  /** The reported postings are exactly the fetched postings at the positions where
      `IsChanged` holds, in fetch order. */
  lemma {:induction false} ChangedPicks(recent: seq<Posting>, prior: map<string, Entry>) returns (idx: seq<nat>)
    ensures PicksAt(Changed(recent, prior), recent, idx)
    ensures forall i :: 0 <= i < |recent| ==> (i in idx <==> IsChanged(recent[i], prior))
    decreases |recent|
  {
    if |recent| == 0 {
      idx := [];
    } else {
      var n := |recent| - 1;
      var init, x := recent[..n], recent[n];
      var front := ChangedPicks(init, prior);
      var c := Changed(init, prior);
      assert recent == init + [x];
      if IsChanged(x, prior) {
        assert Changed(recent, prior) == c + [x];
        idx := front + [n];
        PicksSnoc(c, init, front, x);
      } else {
        assert Changed(recent, prior) == c;
        idx := front;
        PicksLonger(c, init, front, x);
      }
      forall i | 0 <= i < |recent| ensures (i in idx <==> IsChanged(recent[i], prior)) {
        if i < n {
          assert init[i] == recent[i];
          assert i in idx <==> i in front;
        }
      }
    }
  }

  lemma {:induction false} PicksLonger(r: seq<Posting>, s: seq<Posting>, idx: seq<nat>, x: Posting)
    requires PicksAt(r, s, idx)
    ensures PicksAt(r, s + [x], idx)
  {
    forall t | 0 <= t < |idx| ensures idx[t] < |s + [x]| && r[t] == (s + [x])[idx[t]] {
      assert (s + [x])[idx[t]] == s[idx[t]];
    }
  }

  lemma {:induction false} PicksSnoc(r: seq<Posting>, s: seq<Posting>, idx: seq<nat>, x: Posting)
    requires PicksAt(r, s, idx)
    ensures PicksAt(r + [x], s + [x], idx + [|s|])
  {
    var r', s', idx' := r + [x], s + [x], idx + [|s|];
    forall t | 0 <= t < |idx'| ensures idx'[t] < |s'| && r'[t] == s'[idx'[t]] {
      if t < |idx| {
        assert idx'[t] == idx[t] && r'[t] == r[t] && s'[idx[t]] == s[idx[t]];
      }
    }
    forall t, u | 0 <= t < u < |idx'| ensures idx'[t] < idx'[u] {
      if u < |idx| {
        assert idx'[t] == idx[t] && idx'[u] == idx[u];
      } else {
        assert idx'[t] == idx[t];
      }
    }
  }

  /** Membership: a fetched posting is reported iff its key is new to the loaded
      record or its date differs from the stored one. */
  lemma {:induction false} ChangedMembers(recent: seq<Posting>, prior: map<string, Entry>, p: Posting)
    ensures p in Changed(recent, prior) <==>
            p in recent && (p.key !in prior || p.postedDate != prior[p.key].postedDate)
    decreases |recent|
  {
    if |recent| > 0 {
      var n := |recent| - 1;
      ChangedMembers(recent[..n], prior, p);
      assert recent == recent[..n] + [recent[n]];
    }
  }

  /** The second loop of `main`, as written: each fetched posting in turn is stored
      under its key with its URL and date, keeping the status found in the record
      being updated, or "Pending" for a key it does not hold. */
  function Update(seen: Dict, recent: seq<Posting>): Dict
    decreases |recent|
  {
    if |recent| == 0 then seen
    else
      var d := Update(seen, recent[..|recent| - 1]);
      var p := recent[|recent| - 1];
      var status := if p.key in d.m then d.m[p.key].status else DefaultStatus;
      Put(d, p.key, Entry(p.url, p.postedDate, status))
  }

  ghost predicate Fetched(recent: seq<Posting>, k: string) {
    exists i :: 0 <= i < |recent| && recent[i].key == k
  }

  /** Position `i` holds the last posting of the fetch with key `k`. */
  ghost predicate LastAt(recent: seq<Posting>, i: int, k: string) {
    && 0 <= i < |recent| && recent[i].key == k
    && forall j :: i < j < |recent| ==> recent[j].key != k
  }

  /** The status the record ends up with for `k`: the loaded one, else "Pending". */
  function KeptStatus(seen: Dict, k: string): string {
    if k in seen.m then seen.m[k].status else DefaultStatus
  }

  /** What the update does to one key: a key is held afterwards iff it was held
      before or fetched; a fetched key holds the URL and date of its last posting
      in the fetch and its loaded status (or "Pending"); any other key keeps its
      loaded entry. */
  lemma {:induction false} UpdateAt(seen: Dict, recent: seq<Posting>, k: string)
    ensures k in Update(seen, recent).m <==> k in seen.m || Fetched(recent, k)
    ensures k in Update(seen, recent).m ==> Update(seen, recent).m[k].status == KeptStatus(seen, k)
    ensures !Fetched(recent, k) && k in seen.m ==> Update(seen, recent).m[k] == seen.m[k]
    ensures forall i :: LastAt(recent, i, k) ==>
              Update(seen, recent).m[k] == Entry(recent[i].url, recent[i].postedDate, KeptStatus(seen, k))
    decreases |recent|
  {
    if |recent| > 0 {
      var n := |recent| - 1;
      var init, p := recent[..n], recent[n];
      UpdateAt(seen, init, k);
      assert Update(seen, recent) == Put(Update(seen, init), p.key,
        Entry(p.url, p.postedDate, if p.key in Update(seen, init).m then Update(seen, init).m[p.key].status else DefaultStatus));
      if p.key == k {
        assert Fetched(recent, k);
        forall i | LastAt(recent, i, k) ensures i == n { }
      } else {
        assert Fetched(recent, k) <==> Fetched(init, k) by {
          if Fetched(recent, k) {
            var i :| 0 <= i < |recent| && recent[i].key == k;
            assert init[i] == recent[i];
          }
          if Fetched(init, k) {
            var i :| 0 <= i < |init| && init[i].key == k;
            assert recent[i] == init[i];
          }
        }
        forall i | LastAt(recent, i, k) ensures LastAt(init, i, k) && init[i] == recent[i] {
          assert i != n;
        }
      }
    }
  }

  /** The update keeps the dict invariant and never reorders or drops a loaded key:
      the loaded keys stay at the front, in their order. */
  lemma {:induction false} UpdateKeepsOrder(seen: Dict, recent: seq<Posting>)
    requires Valid(seen)
    ensures Valid(Update(seen, recent))
    ensures seen.order <= Update(seen, recent).order
    decreases |recent|
  {
    if |recent| > 0 {
      var n := |recent| - 1;
      var d := Update(seen, recent[..n]);
      var p := recent[n];
      UpdateKeepsOrder(seen, recent[..n]);
      PutValid(d, p.key, Entry(p.url, p.postedDate, if p.key in d.m then d.m[p.key].status else DefaultStatus));
    }
  }

  /** The first loop of `main`. */
  method FindChanged(recent: seq<Posting>, seen: map<string, Entry>) returns (newJobs: seq<Posting>)
    ensures newJobs == Changed(recent, seen)
  {
    newJobs := [];
    var i := 0;
    while i < |recent|
      invariant 0 <= i <= |recent|
      invariant newJobs == Changed(recent[..i], seen)
    {
      var job := recent[i];
      if job.key !in seen {
        newJobs := newJobs + [job];
      } else if job.postedDate != seen[job.key].postedDate {
        newJobs := newJobs + [job];
      }
      assert recent[..i + 1][..i] == recent[..i];
      i := i + 1;
    }
    assert recent[..i] == recent;
  }

  /** The second loop of `main`, applied to the loaded record. */
  method ApplyUpdate(recent: seq<Posting>, seen: Dict) returns (record: Dict)
    requires Valid(seen)
    ensures record == Update(seen, recent) && Valid(record)
  {
    record := seen;
    var j := 0;
    while j < |recent|
      invariant 0 <= j <= |recent|
      invariant record == Update(seen, recent[..j]) && Valid(record)
    {
      var job := recent[j];
      var status := if job.key in record.m then record.m[job.key].status else DefaultStatus;
      PutValid(record, job.key, Entry(job.url, job.postedDate, status));
      record := Put(record, job.key, Entry(job.url, job.postedDate, status));
      assert recent[..j + 1][..j] == recent[..j];
      j := j + 1;
    }
    assert recent[..j] == recent;
  }

  /** One run of `main` after the fetch and load: `digest` is what the notification
      lists, `record` is the record afterwards and `saved` the file text written,
      if any. */
  method RunOnce(recent: seq<Posting>, seen: Dict) returns (digest: seq<Posting>, record: Dict, saved: Option<string>)
    requires Valid(seen)
    ensures |digest| == 0 <==> Changed(recent, seen.m) == []
    ensures multiset(digest) == multiset(Changed(recent, seen.m))
    ensures Digest.SortedDesc(digest)
    ensures forall d :: Digest.WithDate(digest, d) == Digest.WithDate(Changed(recent, seen.m), d)
    ensures saved.None? <==> Changed(recent, seen.m) == []
    ensures saved.None? ==> record == seen
    ensures saved.Some? ==> record == Update(seen, recent) && Valid(record) && saved.value == Store.SaveFile(record)
  {
    var newJobs := FindChanged(recent, seen.m);
    if |newJobs| > 0 {
      digest := Digest.SortDesc(newJobs);
      Digest.SortDescSorted(newJobs);
      Digest.SortDescPerm(newJobs);
      forall d ensures Digest.WithDate(digest, d) == Digest.WithDate(newJobs, d) {
        Digest.SortDescStable(newJobs, d);
      }
      record := ApplyUpdate(recent, seen);
      saved := Some(Store.SaveFile(record));
    } else {
      digest, record, saved := [], seen, None;
    }
  }

  /** A first sighting: with an empty record, the one fetched posting is reported
      and recorded as "Pending". */
  lemma {:induction false} FirstSighting(p: Posting)
    ensures Changed([p], map[]) == [p]
    ensures Update(Empty(), [p]).m == map[p.key := Entry(p.url, p.postedDate, DefaultStatus)]
  {
    assert [p][..0] == [];
    assert Changed([p], map[]) == Changed([], map[]) + [p];
    assert Update(Empty(), [p]) == Put(Empty(), p.key, Entry(p.url, p.postedDate, DefaultStatus));
  }

  /** A re-dated posting is reported again, and the record takes the new date but
      keeps the status already written there. */
  lemma {:induction false} Redated(p: Posting, e: Entry)
    requires e.postedDate != p.postedDate
    ensures Changed([p], map[p.key := e]) == [p]
    ensures Update(Dict([p.key], map[p.key := e]), [p]).m == map[p.key := Entry(p.url, p.postedDate, e.status)]
  {
    var seen := Dict([p.key], map[p.key := e]);
    assert [p][..0] == [];
    assert Changed([p], seen.m) == Changed([], seen.m) + [p];
    assert Update(seen, [p]) == Put(seen, p.key, Entry(p.url, p.postedDate, e.status));
  }

  /** An unchanged posting is not reported, so nothing is sent and the record is
      not written, even when its URL differs from the stored one. */
  lemma {:induction false} SameDateSilent(p: Posting, e: Entry)
    requires e.postedDate == p.postedDate
    ensures Changed([p], map[p.key := e]) == []
  {
    assert [p][..0] == [];
    assert Changed([p], map[p.key := e]) == Changed([], map[p.key := e]);
  }
}
