/** One process's index of pending sign-ins: bounded hub-wide by evicting from
    whoever holds the most, and per address by refusing. */
module GrantIndex {
  const MAX_PENDING := 512
  const MAX_PER_IP := 256

  type Seen = map<string, string>

  function Ids(seen: Seen, ip: string): set<string> {
    set id | id in seen && seen[id] == ip
  }

  /** How many pending sign-ins an address holds. */
  function Held(seen: Seen, ip: string): nat {
    |Ids(seen, ip)|
  }

  lemma HeldAdd(seen: Seen, id: string, ip: string, who: string)
    requires id !in seen
    ensures Held(seen[id := ip], who) == Held(seen, who) + if who == ip then 1 else 0
  {
    if who == ip {
      assert Ids(seen[id := ip], who) == Ids(seen, who) + {id};
    } else {
      assert Ids(seen[id := ip], who) == Ids(seen, who);
    }
  }

  lemma HeldFewer(some: Seen, all: Seen, who: string)
    requires forall id | id in some :: id in all && some[id] == all[id]
    ensures Held(some, who) <= Held(all, who)
  {
    Fewer(Ids(some, who), Ids(all, who));
  }

  lemma {:induction false} Fewer<T>(a: set<T>, b: set<T>)
    requires a <= b
    ensures |a| <= |b|
  {
    assert b == a + (b - a);
  }

  /** The part of a map on some of its keys. */
  function Only(seen: Seen, ids: set<string>): Seen {
    map id | id in seen && id in ids :: seen[id]
  }

  ghost predicate Bounded(seen: Seen) {
    |seen| <= MAX_PENDING && forall ip | ip != "" :: Held(seen, ip) <= MAX_PER_IP
  }

  /** id is held by an address that holds as many as any. */
  ghost predicate HeaviestHolds(seen: Seen, id: string) {
    id in seen && forall ip :: Held(seen, ip) <= Held(seen, seen[id])
  }

  function Swept(seen: Seen, gone: set<string>): Seen {
    seen - gone
  }

  predicate Capped(seen: Seen, ip: string) {
    ip != "" && Held(seen, ip) >= MAX_PER_IP
  }

  /** What making room for one more evicts. */
  ghost predicate Evicts(seen: Seen, evicted: set<string>) {
    if |seen| < MAX_PENDING then evicted == {}
    else exists victim :: evicted == {victim} && HeaviestHolds(seen, victim)
  }

  /** What becomes of the index when id asks for a place: refused at its own
      address's cap, else recorded. */
  ghost predicate Reserved(swept: Seen, id: string, ip: string, ok: bool, evicted: set<string>, seen: Seen) {
    if Capped(swept, ip) then !ok && evicted == {} && seen == swept
    else ok && Evicts(swept, evicted) && seen == (swept - evicted)[id := ip]
  }

  class Index {
    var seen: Seen

    ghost predicate Valid()
      reads this
    {
      Bounded(seen)
    }

    constructor ()
      ensures Valid() && seen == map[]
    {
      seen := map[];
    }

    method AtGrantCap(ip: string) returns (yes: bool)
      ensures yes <==> ip != "" && Held(seen, ip) >= 256
    {
      if ip == "" {
        return false;
      }
      var n := 0;
      var left := seen.Keys;
      while left != {}
        invariant left <= seen.Keys && n < MAX_PER_IP
        invariant n == Held(Only(seen, seen.Keys - left), ip)
        decreases |left|
      {
        var id :| id in left;
        ghost var done := Only(seen, seen.Keys - left);
        left := left - {id};
        assert Only(seen, seen.Keys - left) == done[id := seen[id]];
        HeldAdd(done, id, seen[id], ip);
        if seen[id] == ip {
          n := n + 1;
          if n >= MAX_PER_IP {
            HeldFewer(Only(seen, seen.Keys - left), seen, ip);
            return true;
          }
        }
      }
      assert Only(seen, seen.Keys - left) == seen;
      yes := false;
    }

    method CountByIP() returns (byIP: map<string, nat>)
      ensures forall ip :: (if ip in byIP then byIP[ip] else 0) == Held(seen, ip)
    {
      byIP := map[];
      var left := seen.Keys;
      assert forall ip :: Ids(Only(seen, {}), ip) == {};
      assert seen.Keys - left == {};
      while left != {}
        invariant left <= seen.Keys
        invariant forall ip ::
                    (if ip in byIP then byIP[ip] else 0) == Held(Only(seen, seen.Keys - left), ip)
        decreases |left|
      {
        var id :| id in left;
        ghost var done := Only(seen, seen.Keys - left);
        left := left - {id};
        assert Only(seen, seen.Keys - left) == done[id := seen[id]];
        forall ip ensures Held(done[id := seen[id]], ip) == Held(done, ip) + if ip == seen[id] then 1 else 0 {
          HeldAdd(done, id, seen[id], ip);
        }
        var ip := seen[id];
        byIP := byIP[ip := (if ip in byIP then byIP[ip] else 0) + 1];
      }
      assert Only(seen, seen.Keys - left) == seen;
    }

    method Worst(byIP: map<string, nat>) returns (worst: string)
      requires forall ip :: (if ip in byIP then byIP[ip] else 0) == Held(seen, ip)
      ensures forall ip :: Held(seen, ip) <= Held(seen, worst)
    {
      var n := 0;
      worst := "";
      var left := byIP.Keys;
      while left != {}
        invariant left <= byIP.Keys && n <= Held(seen, worst)
        invariant forall ip | ip in byIP && ip !in left :: byIP[ip] <= n
        decreases |left|
      {
        var ip :| ip in left;
        left := left - {ip};
        assert Held(seen, ip) == byIP[ip];
        if byIP[ip] > n {
          worst, n := ip, byIP[ip];
        }
      }
      forall ip ensures Held(seen, ip) <= Held(seen, worst) {
        assert ip in byIP ==> byIP[ip] <= n;
      }
    }

    method EvictHeaviest() returns (victim: string)
      requires seen != map[]
      modifies this`seen
      ensures HeaviestHolds(old(seen), victim) && seen == old(seen) - {victim}
    {
      var byIP := CountByIP();
      var worst := Worst(byIP);
      var some :| some in seen;
      assert some in Ids(seen, seen[some]);
      assert 0 < Held(seen, seen[some]) <= Held(seen, worst);
      assert Ids(seen, worst) != {};
      victim :| victim in seen && seen[victim] == worst;
      seen := seen - {victim};
    }

    method Sweep(gone: set<string>)
      modifies this`seen
      ensures seen == Swept(old(seen), gone)
    {
      var left := seen.Keys;
      ghost var was := seen;
      while left != {}
        invariant left <= was.Keys
        invariant seen == was - (gone * (was.Keys - left))
        decreases |left|
      {
        var id :| id in left;
        left := left - {id};
        if id in gone {
          seen := seen - {id};
        }
      }
      assert was - (gone * was.Keys) == was - gone;
    }

    method MakeRoom() returns (ghost evicted: set<string>)
      requires Valid()
      modifies this`seen
      ensures Valid() && |seen| < MAX_PENDING
      ensures seen == old(seen) - evicted && Evicts(old(seen), evicted)
    {
      evicted := {};
      ghost var was := seen;
      while |seen| >= MAX_PENDING
        invariant Bounded(seen) && seen == was - evicted
        invariant (seen == was && evicted == {}) || (|seen| < MAX_PENDING && Evicts(was, evicted))
        decreases |seen|
      {
        var victim := EvictHeaviest();
        DropBounded(was, victim);
        evicted := {victim};
      }
    }

    /** The locked first part of newGrant. gone: the indexed grants the store
        no longer holds. */
    method Reserve(id: string, ip: string, gone: set<string>) returns (ok: bool, ghost evicted: set<string>)
      requires Valid() && id !in seen
      modifies this`seen
      ensures Valid()
      ensures Reserved(Swept(old(seen), gone), id, ip, ok, evicted, seen)
      ensures ok <==> ip == "" || Held(old(seen) - gone, ip) < 256
      ensures ok ==> id in seen && seen[id] == ip
      ensures |evicted| == if ok && |old(seen) - gone| == 512 then 1 else 0
      ensures forall k | k in old(seen) && k !in gone && k !in evicted :: k in seen && seen[k] == old(seen)[k]
    {
      evicted := {};
      SweptBounded(seen, gone);
      Sweep(gone);
      var capped := AtGrantCap(ip);
      if capped {
        return false, evicted;
      }
      ghost var swept := seen;
      evicted := MakeRoom();
      RoomBounded(swept, seen, id, ip);
      seen := seen[id := ip];
      ok := true;
    }

    /** What other requests do to the index while this one is not holding the
        lock: anything that keeps it within its bounds. */
    method OthersRun()
      requires Valid()
      modifies this`seen
      ensures Valid()
    {
      var swept: set<string> := *;
      SweptBounded(seen, swept);
      Sweep(swept);
    }

    /** saved: whether the store takes the new grant. The lock is not held
        while it is asked. */
    method NewGrant(id: string, ip: string, gone: set<string>, saved: bool) returns (ok: bool)
      requires Valid() && id !in seen
      modifies this`seen
      ensures Valid()
      ensures ok == (saved && !Capped(Swept(old(seen), gone), ip))
      ensures !Capped(Swept(old(seen), gone), ip) && !saved ==> id !in seen
    {
      ghost var evicted;
      ok, evicted := Reserve(id, ip, gone);
      if !ok {
        return;
      }
      OthersRun();
      if !saved {
        Forget(id);
        ok := false;
      }
    }

    method Forget(id: string)
      requires Valid()
      modifies this`seen
      ensures Valid() && seen == old(seen) - {id}
    {
      if id in seen {
        DropBounded(seen, id);
      } else {
        assert seen - {id} == seen;
      }
      seen := seen - {id};
    }
  }

  lemma SweptBounded(seen: Seen, gone: set<string>)
    requires Bounded(seen)
    ensures Bounded(Swept(seen, gone))
  {
    var swept := Swept(seen, gone);
    Fewer(swept.Keys, seen.Keys);
    assert |swept| == |swept.Keys| && |seen| == |seen.Keys|;
    forall ip | ip != "" ensures Held(swept, ip) <= MAX_PER_IP {
      HeldFewer(swept, seen, ip);
    }
  }

  lemma DropBounded(seen: Seen, id: string)
    requires Bounded(seen) && id in seen
    ensures Bounded(seen - {id}) && |seen - {id}| == |seen| - 1
  {
    SweptBounded(seen, {id});
    assert (seen - {id}).Keys == seen.Keys - {id};
    assert |seen - {id}| == |(seen - {id}).Keys| && |seen| == |seen.Keys|;
  }

  lemma AddBounded(seen: Seen, id: string, ip: string)
    requires Bounded(seen) && id !in seen && |seen| < MAX_PENDING
    requires ip == "" || Held(seen, ip) < MAX_PER_IP
    ensures Bounded(seen[id := ip])
  {
    var more := seen[id := ip];
    assert more.Keys == seen.Keys + {id};
    assert |more| == |more.Keys| && |seen| == |seen.Keys|;
    forall who | who != "" ensures Held(more, who) <= MAX_PER_IP {
      HeldAdd(seen, id, ip, who);
    }
  }

  lemma RoomBounded(swept: Seen, kept: Seen, id: string, ip: string)
    requires Bounded(kept) && id !in kept && |kept| < MAX_PENDING && !Capped(swept, ip)
    requires forall k | k in kept :: k in swept && kept[k] == swept[k]
    ensures Bounded(kept[id := ip])
  {
    HeldFewer(kept, swept, ip);
    AddBounded(kept, id, ip);
  }

  lemma IdsWithout(seen: Seen, ip: string, who: string)
    requires who != ip
    ensures Ids(seen - Ids(seen, ip), who) == Ids(seen, who)
  {
  }

  lemma CountWithout(seen: Seen, ip: string)
    ensures |seen| == |seen - Ids(seen, ip)| + Held(seen, ip)
  {
    var rest := seen - Ids(seen, ip);
    assert seen.Keys == rest.Keys + Ids(seen, ip);
    assert |rest| == |rest.Keys| && |seen| == |seen.Keys|;
  }

  lemma OneMoreShare(n: nat, m: nat, most: nat, a: nat, b: nat)
    requires m == n + 1 && a <= n * most && b <= most
    ensures a + b <= m * most
  {
    assert m * most == n * most + most;
  }

  /** What is left without one address has its addresses among the others,
      none of them with more. */
  lemma SharesWithout(seen: Seen, ips: set<string>, ip: string, most: nat)
    requires forall id | id in seen :: seen[id] in ips
    requires forall who | who in ips :: Held(seen, who) <= most
    ensures var rest := seen - Ids(seen, ip);
            && (forall id | id in rest :: rest[id] in ips - {ip})
            && (forall who | who in ips - {ip} :: Held(rest, who) <= most)
  {
    var rest := seen - Ids(seen, ip);
    forall id | id in rest ensures rest[id] in ips - {ip} {
      assert id !in Ids(seen, ip);
    }
    forall who | who in ips - {ip} ensures Held(rest, who) <= most {
      IdsWithout(seen, ip, who);
    }
  }

  /** Over all its addresses an index holds at most the heaviest's share each. */
  lemma {:induction false} SharesBound(seen: Seen, ips: set<string>, most: nat)
    requires forall id | id in seen :: seen[id] in ips
    requires forall ip | ip in ips :: Held(seen, ip) <= most
    ensures |seen| <= |ips| * most
    decreases |ips|
  {
    if ips == {} {
      assert seen == map[];
    } else {
      var ip :| ip in ips;
      var others, rest := ips - {ip}, seen - Ids(seen, ip);
      assert |ips| == |others| + 1;
      SharesWithout(seen, ips, ip, most);
      SharesBound(rest, others, most);
      CountWithout(seen, ip);
      OneMoreShare(|others|, |ips|, most, |rest|, Held(seen, ip));
    }
  }

  /** A flood costs only the flooder: an eviction makes room in a full index,
      and an address that holds less than its equal share of it loses nothing,
      however the others spread. */
  lemma FairShareIsSpared(seen: Seen, ips: set<string>, victim: string, ip: string)
    requires |seen| >= MAX_PENDING && (forall id | id in seen :: seen[id] in ips)
    requires HeaviestHolds(seen, victim) && Held(seen, ip) * |ips| < MAX_PENDING
    ensures seen[victim] != ip && Ids(seen - {victim}, ip) == Ids(seen, ip)
  {
    SharesBound(seen, ips, Held(seen, seen[victim]));
    assert Held(seen, seen[victim]) * |ips| == |ips| * Held(seen, seen[victim]);
  }
}
