/** Laws of the two keypackage deletes, on any table. */
module KeyPackages {
  import opened Basics
  import opened Tables

  /** The rows above a row within its own device's history. */
  function Newer(t: History, id: RowId): set<RowId> {
    Above(Rows(t, id.device), id)
  }

  /** Both deletes of one `prune_key_packages`, in the order it issues them. */
  function Prune(t: History, cutoff: int, limit: int): History {
    Cap(Expire(t, cutoff), limit)
  }

  // ---- counting ranks ----

  ghost predicate DistinctTimes(s: set<RowId>) {
    forall x, y :: x in s && y in s && x.receivedAt == y.receivedAt ==> x == y
  }

  function Top(s: set<RowId>, k: int): set<RowId> {
    set id | id in s && |Above(s, id)| < k
  }

  lemma OldestExists(s: set<RowId>) returns (m: RowId)
    requires s != {}
    ensures m in s && forall id :: id in s ==> m.receivedAt <= id.receivedAt
  {
    m :| m in s;
    if s != {m} {
      var n := OldestExists(s - {m});
      if n.receivedAt < m.receivedAt { m := n; }
    }
  }

  /** Selecting by rank selects `min(k, n)` rows. */
  lemma {:induction false} TopCount(s: set<RowId>, k: int)
    requires DistinctTimes(s)
    ensures |Top(s, k)| == Min(Max(k, 0), |s|)
    decreases |s|
  {
    if s == {} {
      assert Top(s, k) == {};
    } else {
      var m := OldestExists(s);
      var rest := s - {m};
      TopCount(rest, k);
      TopWithoutOldest(s, m, k);
    }
  }

  lemma TopWithoutOldest(s: set<RowId>, m: RowId, k: int)
    requires DistinctTimes(s) && m in s && forall id :: id in s ==> m.receivedAt <= id.receivedAt
    ensures Top(s, k) == Top(s - {m}, k) + (if |s| - 1 < k then {m} else {})
  {
    var rest := s - {m};
    assert Above(s, m) == rest;
    forall id | id in rest
      ensures Above(s, id) == Above(rest, id)
    {
    }
    forall id
      ensures id in Top(s, k) <==> id in Top(rest, k) + (if |s| - 1 < k then {m} else {})
    {
    }
  }

  ghost predicate UpClosed(kept: set<RowId>, s: set<RowId>) {
    forall x, y :: x in kept && y in s && y.receivedAt > x.receivedAt ==> y in kept
  }

  /** Of a given size there is only one set of newest rows. */
  lemma UpClosedUnique(a: set<RowId>, b: set<RowId>, s: set<RowId>)
    requires DistinctTimes(s) && a <= s && b <= s && |a| == |b|
    requires UpClosed(a, s) && UpClosed(b, s)
    ensures a == b
  {
    if x :| x in a && x !in b {
      assert b <= a - {x};
      CardinalityMonotone(b, a - {x});
    } else if x :| x in b && x !in a {
      assert a <= b - {x};
      CardinalityMonotone(a, b - {x});
    }
  }

  lemma CardinalityMonotone<T>(a: set<T>, b: set<T>)
    requires a <= b
    ensures |a| <= |b|
  {
    assert b == a + (b - a);
  }

  // ---- what each delete keeps ----

  lemma CapRows(t: History, k: int, device: string)
    ensures Rows(Cap(t, k), device) == Top(Rows(t, device), k)
  {
  }

  /** The rank delete keeps the `min(k, n)` newest rows of each device, and that set is the only one of its size. */
  lemma CapKeepsNewest(t: History, k: int, device: string, kept: set<RowId>)
    ensures |Rows(Cap(t, k), device)| == Min(Max(k, 0), |Rows(t, device)|)
    ensures UpClosed(Rows(Cap(t, k), device), Rows(t, device))
    ensures kept == Rows(Cap(t, k), device) <==>
            kept <= Rows(t, device) && UpClosed(kept, Rows(t, device)) && |kept| == Min(Max(k, 0), |Rows(t, device)|)
  {
    var s := Rows(t, device);
    CapRows(t, k, device);
    TopCount(s, k);
    forall x, y | x in Top(s, k) && y in s && y.receivedAt > x.receivedAt
      ensures y in Top(s, k)
    {
      CardinalityMonotone(Above(s, y), Above(s, x));
    }
    if kept <= s && UpClosed(kept, s) && |kept| == Min(Max(k, 0), |s|) {
      UpClosedUnique(kept, Top(s, k), s);
    }
  }

  /** After the rank delete a row that stays has as many rows above it as before. */
  lemma NewerAfterCap(t: History, k: int, id: RowId)
    ensures |Newer(Cap(t, k), id)| == Min(Max(k, 0), |Newer(t, id)|)
    ensures Newer(Cap(t, k), id) <= Newer(t, id)
  {
    var s := Newer(t, id);
    CapRows(t, k, id.device);
    forall r | r in s
      ensures Above(s, r) == Above(Rows(t, id.device), r)
    {
    }
    assert Newer(Cap(t, k), id) == Top(s, k);
    TopCount(s, k);
  }

  lemma NewerAfterExpire(t: History, c: int, id: RowId)
    requires id.receivedAt >= c
    ensures Newer(Expire(t, c), id) == Newer(t, id)
  {
  }

  /** One row's fate under a whole prune depends only on its own time and on how many rows are above it. */
  lemma PruneMember(t: History, c: int, k: int, id: RowId)
    ensures id in Prune(t, c, k) <==> id in t && id.receivedAt >= c && |Newer(t, id)| < k
    ensures id in Prune(t, c, k) ==> Prune(t, c, k)[id] == t[id]
  {
    if id.receivedAt >= c {
      NewerAfterExpire(t, c, id);
    }
  }

  // ---- algebra ----

  lemma DeletesCommute(t: History, c: int, k: int)
    ensures Expire(Cap(t, k), c) == Cap(Expire(t, c), k)
  {
    forall id
      ensures id in Expire(Cap(t, k), c) <==> id in Cap(Expire(t, c), k)
    {
      PruneMember(t, c, k, id);
    }
  }

  /** Two prunes with nothing between them are one prune with the later cutoff and the smaller cap. */
  lemma PrunesCompose(t: History, c1: int, k1: int, c2: int, k2: int)
    ensures Prune(Prune(t, c1, k1), c2, k2) == Prune(t, Max(c1, c2), Min(k1, k2))
  {
    var once := Prune(t, c1, k1);
    forall id
      ensures id in Prune(once, c2, k2) <==> id in Prune(t, Max(c1, c2), Min(k1, k2))
      ensures id in Prune(once, c2, k2) ==> Prune(once, c2, k2)[id] == Prune(t, Max(c1, c2), Min(k1, k2))[id]
    {
      PruneMember(t, c1, k1, id);
      PruneMember(once, c2, k2, id);
      PruneMember(t, Max(c1, c2), Min(k1, k2), id);
      if id in once {
        NewerAfterExpire(t, c1, id);
        NewerAfterCap(Expire(t, c1), k1, id);
      }
    }
  }

  // ---- what a reader sees ----

  /** A cap of zero, or one that turned negative in the cast, empties the table. */
  lemma CapBelowOne(t: History, k: int)
    ensures k < 1 ==> Cap(t, k) == map[]
  {
  }

  /** Each delete leaves the newest bundle as it was, or leaves none; neither exposes an older one. */
  lemma LatestUnderDeletes(t: History, c: int, k: int, device: string)
    ensures Newest(Expire(t, c), device) ==
            if Newest(t, device).Some? && Newest(t, device).value.receivedAt >= c then Newest(t, device) else None
    ensures Newest(Cap(t, k), device) == if k >= 1 then Newest(t, device) else None
    ensures k >= 1 ==> Latest(Cap(t, k), device) == Latest(t, device)
    ensures Latest(Expire(t, c), device) in {Latest(t, device), None}
  {
    CapBelowOne(t, k);
    var top := Newest(t, device);
    assert Rows(Expire(t, c), device) <= Rows(t, device);
    assert Rows(Cap(t, k), device) <= Rows(t, device);
    if top.Some? {
      assert Above(Rows(t, device), top.value) == {};
      if k >= 1 {
        assert top.value in Rows(Cap(t, k), device);
      }
      if top.value.receivedAt >= c {
        assert top.value in Rows(Expire(t, c), device);
      }
    }
  }
}
