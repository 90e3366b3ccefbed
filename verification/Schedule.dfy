/** Whole histories of keypackage inserts and prunes, under a clock that does not go back. */
module Schedule {
  import opened Basics
  import opened Tables
  import opened KeyPackages
  import Retention

  predicate PrunesKeyPackages(a: Action) {
    a.ExpireKeyPackages? || a.CapKeyPackages?
  }

  /** The history with every keypackage delete taken out. */
  function WithoutPrunes(es: seq<Event>): seq<Event>
    decreases |es|
  {
    if es == [] then []
    else
      var rest, e := WithoutPrunes(es[..|es| - 1]), es[|es| - 1];
      if PrunesKeyPackages(e.action) then rest else rest + [e]
  }

  /** What is left is every event but the two kinds of keypackage delete, in order. */
  lemma {:induction false} WithoutPrunesExact(es: seq<Event>) returns (at: seq<nat>)
    ensures Picks(es, at, WithoutPrunes(es))
    ensures forall i :: 0 <= i < |es| ==>
              (i in at <==> !es[i].action.ExpireKeyPackages? && !es[i].action.CapKeyPackages?)
    decreases |es|
  {
    if es == [] {
      at := [];
    } else {
      var n := |es| - 1;
      var rest := WithoutPrunesExact(es[..n]);
      PicksMore(es, rest, WithoutPrunes(es[..n]));
      at := if PrunesKeyPackages(es[n].action) then rest else rest + [n];
      forall i | 0 <= i < |es|
        ensures i in at <==> !es[i].action.ExpireKeyPackages? && !es[i].action.CapKeyPackages?
      {
        if i < n { assert es[..n][i] == es[i]; }
      }
    }
  }

  /** The two deletes of one `prune_key_packages`, which samples the clock once. */
  function PruneEvents(now: u64, retention: u64, cap: u64): seq<Event> {
    [Event(now, ExpireKeyPackages(retention)), Event(now, CapKeyPackages(cap))]
  }

  lemma RunPrune(v: Rules, s: State, es: seq<Event>, now: u64, retention: u64, cap: u64)
    ensures RunFrom(v, s, es + PruneEvents(now, retention, cap)) ==
            var t := RunFrom(v, s, es);
            t.(keypackages := Prune(t.keypackages, Retention.Cutoff(now, retention), AsI64(cap)))
  {
    var x, y := PruneEvents(now, retention, cap)[0], PruneEvents(now, retention, cap)[1];
    assert es + PruneEvents(now, retention, cap) == (es + [x]) + [y];
    RunSnoc(v, s, es, x);
    RunSnoc(v, s, es + [x], y);
  }

  /** The cap is cast to `i64`: a cap of zero, or of 2^63 and more, empties any table, and no other cap does. */
  lemma CapEmptiesIff(v: Rules, s: State, now: u64, cap: u64)
    requires s.keypackages != map[]
    ensures Next(v, s, Event(now, CapKeyPackages(cap))).keypackages == map[] <==> cap == 0 || cap >= TWO63
  {
    CapBelowOne(s.keypackages, AsI64(cap));
    var id :| id in s.keypackages;
    assert id in Rows(s.keypackages, id.device);
    LatestUnderDeletes(s.keypackages, 0, AsI64(cap), id.device);
    assert Rows(map[], id.device) == {};
  }

  /** The promised count, `min(cap, n)` rows for a device, is kept exactly while the cap survives its cast. */
  lemma CapCountIff(v: Rules, s: State, now: u64, cap: u64, device: string)
    ensures |Rows(Next(v, s, Event(now, CapKeyPackages(cap))).keypackages, device)| ==
            Min(cap, |Rows(s.keypackages, device)|)
            <==> cap < TWO63 || Rows(s.keypackages, device) == {}
  {
    CapKeepsNewest(s.keypackages, AsI64(cap), device, {});
  }

  // ---- the prune schedule cannot be observed ----

  /**
   `a` is `b` with some rows missing, and every missing row is one that a prune with cutoff `c` and cap `k`
   would take anyway; rows as new as the clock are never missing, so both tables refuse the same inserts.
   */
  ghost predicate Lags(a: History, b: History, c: int, k: int, clock: int) {
    && (forall id :: id in a ==> id in b && a[id] == b[id])
    && (forall id :: id in b ==> id.receivedAt <= clock)
    && (forall id :: id in b && id !in a ==> id.receivedAt < clock && (id.receivedAt < c || |Newer(a, id)| >= k))
  }

  lemma LagsInsert(a: History, b: History, c: int, k: int, clock: int, id: RowId, row: KeyPackage)
    requires Lags(a, b, c, k, clock) && clock <= id.receivedAt
    ensures id in a <==> id in b
    ensures id !in b ==> Lags(a[id := row], b[id := row], c, k, id.receivedAt)
  {
    forall r | r in b && r !in a
      ensures |Newer(a, r)| <= |Newer(a[id := row], r)|
    {
      CardinalityMonotone(Newer(a, r), Newer(a[id := row], r));
    }
  }

  lemma LagsExpire(a: History, b: History, c: int, k: int, clock: int, cutoff: int)
    requires Lags(a, b, c, k, clock) && cutoff <= c && cutoff <= clock
    ensures Lags(Expire(a, cutoff), b, c, k, clock)
  {
    var a' := Expire(a, cutoff);
    forall id | id in b && id !in a' && id.receivedAt >= c
      ensures id.receivedAt < clock && |Newer(a', id)| >= k
    {
      NewerAfterExpire(a, cutoff, id);
    }
  }

  lemma LagsCap(a: History, b: History, c: int, k: int, clock: int, limit: int)
    requires Lags(a, b, c, k, clock) && 1 <= k <= limit
    ensures Lags(Cap(a, limit), b, c, k, clock)
  {
    var a' := Cap(a, limit);
    forall id | id in b && id !in a'
      ensures id.receivedAt < clock && (id.receivedAt < c || |Newer(a', id)| >= k)
    {
      NewerAfterCap(a, limit, id);
      if id in a {
        assert |Newer(a, id)| >= limit >= 1;
        var r :| r in Newer(a, id);
        assert r.receivedAt <= clock;
      }
    }
  }

  /** The last prune takes the lagging table and the full one to the same rows. */
  lemma LagsPruned(a: History, b: History, c: int, k: int, clock: int)
    requires Lags(a, b, c, k, clock)
    ensures Prune(a, c, k) == Prune(b, c, k)
  {
    forall id
      ensures id in Prune(a, c, k) <==> id in Prune(b, c, k)
      ensures id in Prune(a, c, k) ==> Prune(a, c, k)[id] == Prune(b, c, k)[id]
    {
      PruneMember(a, c, k, id);
      PruneMember(b, c, k, id);
      CardinalityMonotone(Newer(a, id), Newer(b, id));
      if id in b && id.receivedAt >= c && |Newer(a, id)| < k && Newer(a, id) != Newer(b, id) {
        var r :| r in Newer(b, id) && r !in Newer(a, id);
        CardinalityMonotone(Newer(a, r), Newer(a, id));
      }
    }
  }

  /** No delete in `es` reaches further than a prune with cutoff `c` and cap `k`. */
  ghost predicate Gentler(es: seq<Event>, c: int, k: int) {
    forall i :: 0 <= i < |es| ==>
      match es[i].action
      case ExpireKeyPackages(retention) => Retention.Cutoff(es[i].now, retention) <= c
      case CapKeyPackages(cap) => k <= AsI64(cap)
      case _ => true
  }

  /** One event on both sides; a prune only on the left. */
  lemma LagsStep(v: Rules, s: State, t: State, e: Event, c: int, k: int)
    requires e.now < TWO63 && k >= 1 && Gentler([e], c, k) && Lags(s.keypackages, t.keypackages, c, k, e.now)
    ensures Lags(Next(v, s, e).keypackages,
                 if PrunesKeyPackages(e.action) then t.keypackages else Next(v, t, e).keypackages, c, k, e.now)
    ensures e.action.Insert? ==> Answer(v, s, e) == Answer(v, t, e)
  {
    var a, b := s.keypackages, t.keypackages;
    assert [e][0] == e;
    match e.action {
      case Insert(device, bundle) => LagsInsert(a, b, c, k, e.now, RowId(device, e.now), bundle);
      case ExpireKeyPackages(retention) =>
        Retention.CutoffMonotone(e.now, e.now, retention);
        LagsExpire(a, b, c, k, e.now, Retention.Cutoff(e.now, retention));
      case CapKeyPackages(cap) => LagsCap(a, b, c, k, e.now, AsI64(cap));
      case _ =>
    }
  }

  lemma LagsLater(a: History, b: History, c: int, k: int, clock: int, later: int)
    requires Lags(a, b, c, k, clock) && clock <= later
    ensures Lags(a, b, c, k, later)
  {
  }

  lemma {:induction false} LagsRun(v: Rules, es: seq<Event>, c: int, k: int, clock: int)
    requires Clocked(es) && k >= 1 && Gentler(es, c, k)
    requires 0 <= clock && forall i :: 0 <= i < |es| ==> es[i].now <= clock
    ensures Lags(Run(v, es).keypackages, Run(v, WithoutPrunes(es)).keypackages, c, k, clock)
    decreases |es|
  {
    if es != [] {
      var n := |es| - 1;
      var e, before := es[n], es[..n];
      LagsRun(v, before, c, k, e.now);
      assert Gentler([e], c, k);
      LagsStep(v, Run(v, before), Run(v, WithoutPrunes(before)), e, c, k);
      if !PrunesKeyPackages(e.action) {
        RunSnoc(v, EMPTY, WithoutPrunes(before), e);
      }
      LagsLater(Run(v, es).keypackages, Run(v, WithoutPrunes(es)).keypackages, c, k, e.now, clock);
    }
  }

  /** Every cap delete of the history keeps at least one row of each device. */
  ghost predicate PositiveCaps(es: seq<Event>) {
    forall i :: 0 <= i < |es| && es[i].action.CapKeyPackages? ==> 1 <= es[i].action.cap < TWO63
  }

  /** Every insert is answered as it is in the history without prunes. */
  ghost predicate InsertsUnaffected(v: Rules, es: seq<Event>) {
    forall i :: 0 <= i < |es| && es[i].action.Insert? ==>
    Answer(v, Run(v, es[..i]), es[i]) == Answer(v, Run(v, WithoutPrunes(es[..i])), es[i])
  }

  lemma GentlerIsPositive(es: seq<Event>, c: int, k: int)
    requires Gentler(es, c, k) && k >= 1
    ensures PositiveCaps(es)
  {
  }

  /** Prunes of any window and any positive cap, at any time, leave every insert's answer as it is without them. */
  lemma InsertAnswersIgnorePrunes(v: Rules, es: seq<Event>, i: nat)
    requires Clocked(es) && PositiveCaps(es) && i < |es| && es[i].action.Insert?
    ensures Answer(v, Run(v, es[..i]), es[i]) == Answer(v, Run(v, WithoutPrunes(es[..i])), es[i])
  {
    var before := es[..i];
    assert Clocked(before);
    CutoffsBelowLimit(es);
    assert Gentler(before, TWO63, 1) && Gentler([es[i]], TWO63, 1);
    LagsRun(v, before, TWO63, 1, es[i].now);
    LagsStep(v, Run(v, before), Run(v, WithoutPrunes(before)), es[i], TWO63, 1);
  }

  lemma CutoffsBelowLimit(es: seq<Event>)
    requires Clocked(es) && PositiveCaps(es)
    ensures Gentler(es, TWO63, 1)
  {
    forall i | 0 <= i < |es| && es[i].action.ExpireKeyPackages?
      ensures Retention.Cutoff(es[i].now, es[i].action.retention) <= TWO63
    {
      Retention.CutoffMonotone(es[i].now, es[i].now, es[i].action.retention);
    }
  }

  /**
   Any history that ends in a prune leaves the same keypackage table as the history keeping only that last
   prune, whatever the earlier prunes were (whole or cut short between the two deletes), as long as none of
   them reached further; and, unless the cap empties the table, every insert gets the same answer in both.
   */
  lemma PruneScheduleUnobservable(v: Rules, es: seq<Event>, now: u64, retention: u64, cap: u64)
    requires Clocked(es + PruneEvents(now, retention, cap))
    requires Gentler(es, Retention.Cutoff(now, retention), AsI64(cap))
    ensures Run(v, es + PruneEvents(now, retention, cap)).keypackages ==
            Run(v, WithoutPrunes(es) + PruneEvents(now, retention, cap)).keypackages
    ensures 1 <= cap < TWO63 ==> InsertsUnaffected(v, es)
  {
    ClockedPrefix(es, now, retention, cap);
    SameTable(v, es, now, retention, cap);
    if 1 <= cap < TWO63 {
      GentlerIsPositive(es, Retention.Cutoff(now, retention), cap);
      SameAnswers(v, es);
    }
  }

  lemma SameTable(v: Rules, es: seq<Event>, now: u64, retention: u64, cap: u64)
    requires Clocked(es) && now < TWO63 && (forall i :: 0 <= i < |es| ==> es[i].now <= now)
    requires Gentler(es, Retention.Cutoff(now, retention), AsI64(cap))
    ensures Run(v, es + PruneEvents(now, retention, cap)).keypackages ==
            Run(v, WithoutPrunes(es) + PruneEvents(now, retention, cap)).keypackages
  {
    var c := Retention.Cutoff(now, retention);
    if 1 <= cap < TWO63 {
      LagsRun(v, es, c, cap, now);
      LagsPruned(Run(v, es).keypackages, Run(v, WithoutPrunes(es)).keypackages, c, cap, now);
    } else {
      CapBelowOne(Expire(Run(v, es).keypackages, c), AsI64(cap));
      CapBelowOne(Expire(Run(v, WithoutPrunes(es)).keypackages, c), AsI64(cap));
    }
    RunPrune(v, EMPTY, es, now, retention, cap);
    RunPrune(v, EMPTY, WithoutPrunes(es), now, retention, cap);
  }

  lemma SameAnswers(v: Rules, es: seq<Event>)
    requires Clocked(es) && PositiveCaps(es)
    ensures InsertsUnaffected(v, es)
  {
    forall i | 0 <= i < |es| && es[i].action.Insert?
      ensures Answer(v, Run(v, es[..i]), es[i]) == Answer(v, Run(v, WithoutPrunes(es[..i])), es[i])
    {
      InsertAnswersIgnorePrunes(v, es, i);
    }
  }

  lemma ClockedPrefix(es: seq<Event>, now: u64, retention: u64, cap: u64)
    requires Clocked(es + PruneEvents(now, retention, cap))
    ensures Clocked(es) && now < TWO63 && forall i :: 0 <= i < |es| ==> es[i].now <= now
  {
    var all := es + PruneEvents(now, retention, cap);
    assert forall i :: 0 <= i < |es| ==> all[i] == es[i];
    assert all[|es|].now == now;
  }

  /** Every keypackage prune of the history uses this window and this cap. */
  ghost predicate Fixed(es: seq<Event>, retention: u64, cap: u64) {
    forall i :: 0 <= i < |es| ==>
      && (es[i].action.ExpireKeyPackages? ==> es[i].action.retention == retention)
      && (es[i].action.CapKeyPackages? ==> es[i].action.cap == cap)
  }

  /** The service's own setting: one retention window and one cap for the life of the process. */
  lemma FixedSettingsUnobservable(v: Rules, es: seq<Event>, now: u64, retention: u64, cap: u64)
    requires Clocked(es + PruneEvents(now, retention, cap)) && Fixed(es, retention, cap)
    ensures Run(v, es + PruneEvents(now, retention, cap)).keypackages ==
            Run(v, WithoutPrunes(es) + PruneEvents(now, retention, cap)).keypackages
    ensures 1 <= cap < TWO63 ==> InsertsUnaffected(v, es)
  {
    ClockedPrefix(es, now, retention, cap);
    forall i | 0 <= i < |es| && es[i].action.ExpireKeyPackages?
      ensures Retention.Cutoff(es[i].now, retention) <= Retention.Cutoff(now, retention)
    {
      Retention.CutoffMonotone(es[i].now, now, retention);
    }
    PruneScheduleUnobservable(v, es, now, retention, cap);
  }

  /** One device publishing one bundle again and again, among prunes. */
  predicate Republishes(es: seq<Event>, device: string, bundle: KeyPackage) {
    forall i :: 0 <= i < |es| ==> es[i].action == Insert(device, bundle) || PrunesKeyPackages(es[i].action)
  }

  /** The answers of inserts hide every schedule of a setting's prunes exactly when its cap keeps a row at all. */
  lemma AnswersHidePrunesIff(v: Rules, device: string, bundle: KeyPackage, retention: u64, cap: u64)
    ensures (forall es :: Clocked(es) && Fixed(es, retention, cap) && Republishes(es, device, bundle) ==>
               InsertsUnaffected(v, es)) <==> 1 <= cap < TWO63
  {
    if 1 <= cap < TWO63 {
      forall es | Clocked(es) && Fixed(es, retention, cap) && Republishes(es, device, bundle)
        ensures InsertsUnaffected(v, es)
      {
        SameAnswers(v, es);
      }
    } else {
      EmptyingCapShows(v, device, bundle, retention, cap);
      var x := Event(0, Insert(device, bundle));
      var es := [x] + PruneEvents(0, retention, cap) + [x];
      assert es[..3] == [x] + PruneEvents(0, retention, cap) && es[3] == x;
      assert Clocked(es) && Fixed(es, retention, cap) && Republishes(es, device, bundle);
    }
  }

  /** Under a cap that empties the table, a prune lets a second insert of the same millisecond through. */
  lemma EmptyingCapShows(v: Rules, device: string, bundle: KeyPackage, retention: u64, cap: u64)
    requires cap == 0 || cap >= TWO63
    ensures var x := Event(0, Insert(device, bundle));
            var es := [x] + PruneEvents(0, retention, cap);
            && Answer(v, Run(v, es), x) == Inserted
            && Answer(v, Run(v, WithoutPrunes(es)), x) == DuplicateKey
  {
    var x := Event(0, Insert(device, bundle));
    var y, z := PruneEvents(0, retention, cap)[0], PruneEvents(0, retention, cap)[1];
    RunPrune(v, EMPTY, [x], 0, retention, cap);
    CapBelowOne(Expire(Run(v, [x]).keypackages, Retention.Cutoff(0, retention)), AsI64(cap));
    assert ([x] + [y, z])[..2] == [x, y] && [x, y][..1] == [x] && [x][..0] == [];
    assert WithoutPrunes([x]) == [x];
    RunSnoc(v, EMPTY, [], x);
  }

  // ---- the history table reads as one cell per device ----

  datatype Cell = Cell(at: int, bundle: KeyPackage)

  function RegisterStep(prev: Option<Cell>, e: Event, device: string): Option<Cell> {
    match e.action
    case Insert(d, bundle) =>
      if d != device || (prev.Some? && prev.value.at == e.now) then prev else Some(Cell(e.now, bundle))
    case ExpireKeyPackages(retention) =>
      if prev.Some? && prev.value.at < Retention.Cutoff(e.now, retention) then None else prev
    case CapKeyPackages(cap) => if 1 <= cap < TWO63 then prev else None
    case _ => prev
  }

  /** One cell: the last insert accepted for the device, forgotten once a cutoff passes it. */
  function Register(es: seq<Event>, device: string): Option<Cell>
    decreases |es|
  {
    if es == [] then None else RegisterStep(Register(es[..|es| - 1], device), es[|es| - 1], device)
  }

  ghost predicate Mirrors(t: History, device: string, cell: Option<Cell>) {
    match cell
    case None => Newest(t, device) == None
    case Some(c) => Newest(t, device) == Some(RowId(device, c.at)) && t[RowId(device, c.at)] == c.bundle
  }

  lemma MirrorsInsert(t: History, device: string, cell: Option<Cell>, id: RowId, row: KeyPackage)
    requires Mirrors(t, device, cell) && forall r :: r in t ==> r.receivedAt <= id.receivedAt
    ensures id.device == device ==> (id in t <==> cell.Some? && cell.value.at == id.receivedAt)
    ensures id !in t && id.device == device ==> Mirrors(t[id := row], device, Some(Cell(id.receivedAt, row)))
    ensures id !in t && id.device != device ==> Mirrors(t[id := row], device, cell)
  {
    assert id in t && id.device == device ==> id in Rows(t, device);
    var t' := t[id := row];
    if id !in t {
      assert Rows(t', device) == Rows(t, device) + (if id.device == device then {id} else {});
    }
  }

  lemma MirrorsStep(v: Rules, s: State, e: Event, device: string, cell: Option<Cell>)
    requires e.now < TWO63 && Mirrors(s.keypackages, device, cell)
    requires forall r :: r in s.keypackages ==> r.receivedAt <= e.now
    ensures Mirrors(Next(v, s, e).keypackages, device, RegisterStep(cell, e, device))
    ensures forall r :: r in Next(v, s, e).keypackages ==> r.receivedAt <= e.now
  {
    match e.action {
      case Insert(d, bundle) => MirrorsInsert(s.keypackages, device, cell, RowId(d, e.now), bundle);
      case ExpireKeyPackages(retention) =>
        LatestUnderDeletes(s.keypackages, Retention.Cutoff(e.now, retention), 1, device);
      case CapKeyPackages(cap) =>
        LatestUnderDeletes(s.keypackages, 0, AsI64(cap), device);
      case _ =>
    }
  }

  lemma {:induction false} RunMirrors(v: Rules, es: seq<Event>, device: string)
    requires Clocked(es)
    ensures Mirrors(Run(v, es).keypackages, device, Register(es, device))
    ensures forall id :: id in Run(v, es).keypackages ==> es != [] && id.receivedAt <= es[|es| - 1].now
    decreases |es|
  {
    if es == [] {
      assert Rows(map[], device) == {};
    } else {
      var n := |es| - 1;
      var before := es[..n];
      RunMirrors(v, before, device);
      assert before != [] ==> es[n - 1].now <= es[n].now;
      MirrorsStep(v, Run(v, before), es[n], device, Register(before, device));
    }
  }

  /** Reading the newest row is reading the register: `latest` is the last accepted insert until it expires. */
  lemma LatestIsRegister(v: Rules, es: seq<Event>, device: string)
    requires Clocked(es)
    ensures Latest(Run(v, es).keypackages, device) ==
            match Register(es, device) case None => None case Some(c) => Some(c.bundle)
  {
    RunMirrors(v, es, device);
  }

  /** An insert is refused exactly when the register already holds one of the same millisecond. */
  lemma DuplicateIffSameMillisecond(v: Rules, es: seq<Event>, device: string, bundle: KeyPackage, now: u64)
    requires Clocked(es + [Event(now, Insert(device, bundle))])
    ensures Answer(v, Run(v, es), Event(now, Insert(device, bundle))) == DuplicateKey <==>
            Register(es, device).Some? && Register(es, device).value.at == now
  {
    var all := es + [Event(now, Insert(device, bundle))];
    assert forall i :: 0 <= i < |es| ==> all[i] == es[i];
    assert all[|es|].now == now;
    RunMirrors(v, es, device);
    MirrorsInsert(Run(v, es).keypackages, device, Register(es, device), RowId(device, now), bundle);
  }
}
