/** The role-assignment engine of game.py, stated on values: the team filter,
    the priority sort, the greedy packer and the whole generation step, with
    the properties the engine is meant to keep. `Game.MafiaGame` runs the
    same steps imperatively and is proved equal to these definitions. */
module RoleAssignment {
  import opened Roles

  /** An availability table: a role may be packed when it maps to true. A
      missing key reads as false, as `dict.get` does on the availability dict in game.py. */
  type Availability = map<RoleId, bool>

  predicate Available(a: Availability, id: RoleId)
  {
    id in a && a[id]
  }

  // ---------------------------------------------------------------------
  // Team filter (`__get_roles_by_team`)

  /** The roles of team `t`, in their original order. */
  function RolesByTeam(c: Catalog, roles: seq<RoleId>, t: Team): (r: seq<RoleId>)
    ensures forall x :: x in r <==> x in roles && c.team(x) == t
    ensures |r| <= |roles|
  {
    if roles == [] then []
    else (if c.team(roles[0]) == t then [roles[0]] else []) + RolesByTeam(c, roles[1..], t)
  }

  /** One step of the filter, spelled out for the proofs that unfold it. */
  lemma RolesByTeamStep(c: Catalog, roles: seq<RoleId>, t: Team)
    requires roles != []
    ensures RolesByTeam(c, roles, t)
            == (if c.team(roles[0]) == t then [roles[0]] else []) + RolesByTeam(c, roles[1..], t)
  {
  }

  /** Filtering distributes over concatenation, so the filter keeps order. */
  lemma {:induction false} RolesByTeamAppend(c: Catalog, a: seq<RoleId>, b: seq<RoleId>, t: Team)
    ensures RolesByTeam(c, a + b, t) == RolesByTeam(c, a, t) + RolesByTeam(c, b, t)
  {
    if a == [] {
      assert a + b == b;
    } else {
      assert (a + b)[1..] == a[1..] + b;
      RolesByTeamAppend(c, a[1..], b, t);
    }
  }

  /** A list that lies wholly in team `t` is kept unchanged. */
  lemma {:induction false} RolesByTeamKeepsTeam(c: Catalog, roles: seq<RoleId>, t: Team)
    requires forall i :: 0 <= i < |roles| ==> c.team(roles[i]) == t
    ensures RolesByTeam(c, roles, t) == roles
  {
    if roles != [] {
      RolesByTeamKeepsTeam(c, roles[1..], t);
    }
  }

  /** The two team filters split a list: together they hold every role exactly as often. */
  lemma {:induction false} RolesByTeamPartition(c: Catalog, roles: seq<RoleId>)
    ensures multiset(RolesByTeam(c, roles, MafiaTeam)) + multiset(RolesByTeam(c, roles, CivilianTeam))
            == multiset(roles)
  {
    if roles != [] {
      var h, rest := roles[0], roles[1..];
      RolesByTeamPartition(c, rest);
      assert multiset(roles) == multiset{h} + multiset(rest) by {
        assert roles == [h] + rest;
      }
      var m, v := RolesByTeam(c, rest, MafiaTeam), RolesByTeam(c, rest, CivilianTeam);
      RolesByTeamStep(c, roles, MafiaTeam);
      RolesByTeamStep(c, roles, CivilianTeam);
      var mm, vv := multiset(RolesByTeam(c, roles, MafiaTeam)), multiset(RolesByTeam(c, roles, CivilianTeam));
      if c.team(h) == MafiaTeam {
        assert mm == multiset{h} + multiset(m);
        assert vv == multiset(v);
      } else {
        assert mm == multiset(m);
        assert vv == multiset{h} + multiset(v);
      }
      assert mm + vv == multiset{h} + (multiset(m) + multiset(v));
    }
  }

  // ---------------------------------------------------------------------
  // Priority sort (`sorted(roles, key=get_priority)`)

  predicate SortedByPriority(c: Catalog, s: seq<RoleId>)
  {
    forall i, j :: 0 <= i < j < |s| ==> c.priority(s[i]) <= c.priority(s[j])
  }

  /** Inserts `x` before the first role of no lower priority, so that among
      equal priorities the earlier input stays first. */
  function InsertByPriority(c: Catalog, x: RoleId, s: seq<RoleId>): (r: seq<RoleId>)
    ensures multiset(r) == multiset(s) + multiset{x}
    ensures |r| == |s| + 1
  {
    if s == [] then [x]
    else if c.priority(x) <= c.priority(s[0]) then [x] + s
    else
      assert s == [s[0]] + s[1..];
      [s[0]] + InsertByPriority(c, x, s[1..])
  }

  /** Insertion into a sorted list keeps it sorted, and the new head is
      either the inserted role or the old head. */
  lemma {:induction false} InsertKeepsSorted(c: Catalog, x: RoleId, s: seq<RoleId>)
    requires SortedByPriority(c, s)
    ensures var r := InsertByPriority(c, x, s);
      SortedByPriority(c, r) && (r[0] == x || (s != [] && r[0] == s[0]))
  {
    if s != [] {
      if c.priority(x) <= c.priority(s[0]) {
        PrependSorted(c, x, s);
      } else {
        var rest := InsertByPriority(c, x, s[1..]);
        InsertKeepsSorted(c, x, s[1..]);
        assert rest[0] == x || (|s| > 1 && rest[0] == s[1]);
        PrependSorted(c, s[0], rest);
      }
    }
  }

  /** A role no higher than the head of a sorted list may go in front of it. */
  lemma PrependSorted(c: Catalog, h: RoleId, s: seq<RoleId>)
    requires SortedByPriority(c, s) && s != [] && c.priority(h) <= c.priority(s[0])
    ensures SortedByPriority(c, [h] + s)
  {
    var r := [h] + s;
    forall i, j | 0 <= i < j < |r|
      ensures c.priority(r[i]) <= c.priority(r[j])
    {
      assert r[j] == s[j - 1];
      if i > 0 {
        assert r[i] == s[i - 1];
      } else if j > 1 {
        assert c.priority(s[0]) <= c.priority(s[j - 1]);
      }
    }
  }

  /** A stable ascending sort by priority. */
  function SortByPriority(c: Catalog, s: seq<RoleId>): (r: seq<RoleId>)
    ensures SortedByPriority(c, r)
    ensures multiset(r) == multiset(s)
    ensures |r| == |s|
  {
    if s == [] then []
    else
      assert s == [s[0]] + s[1..];
      var rest := SortByPriority(c, s[1..]);
      InsertKeepsSorted(c, s[0], rest);
      InsertByPriority(c, s[0], rest)
  }

  /** The roles of priority `p`, in their original order. */
  function OfPriority(c: Catalog, s: seq<RoleId>, p: int): seq<RoleId>
  {
    if s == [] then []
    else (if c.priority(s[0]) == p then [s[0]] else []) + OfPriority(c, s[1..], p)
  }

  /** `OfPriority` on a list with a known head. */
  lemma OfPriorityCons(c: Catalog, h: RoleId, t: seq<RoleId>, p: int)
    ensures OfPriority(c, [h] + t, p) == (if c.priority(h) == p then [h] else []) + OfPriority(c, t, p)
  {
    var r := [h] + t;
    assert r[0] == h && r[1..] == t;
  }

  /** Insertion goes in front of every role of its own priority. */
  lemma {:induction false} InsertOfPriority(c: Catalog, x: RoleId, s: seq<RoleId>, p: int)
    ensures OfPriority(c, InsertByPriority(c, x, s), p)
            == (if c.priority(x) == p then [x] else []) + OfPriority(c, s, p)
  {
    if s == [] || c.priority(x) <= c.priority(s[0]) {
      assert InsertByPriority(c, x, s) == [x] + s;
      OfPriorityCons(c, x, s, p);
    } else {
      var rest := InsertByPriority(c, x, s[1..]);
      var tail := OfPriority(c, s[1..], p);
      var hx: seq<RoleId> := if c.priority(x) == p then [x] else [];
      var h0: seq<RoleId> := if c.priority(s[0]) == p then [s[0]] else [];
      assert InsertByPriority(c, x, s) == [s[0]] + rest;
      assert OfPriority(c, rest, p) == hx + tail by {
        InsertOfPriority(c, x, s[1..], p);
      }
      assert OfPriority(c, s, p) == h0 + tail by {
        assert s == [s[0]] + s[1..];
        OfPriorityCons(c, s[0], s[1..], p);
      }
      assert OfPriority(c, [s[0]] + rest, p) == h0 + OfPriority(c, rest, p) by {
        OfPriorityCons(c, s[0], rest, p);
      }
      assert h0 + (hx + tail) == hx + (h0 + tail) by {
        if hx == [] {
          assert hx + tail == tail && hx + (h0 + tail) == h0 + tail;
        } else {
          assert h0 == [];
          assert h0 + (hx + tail) == hx + tail && h0 + tail == tail;
        }
      }
    }
  }

  /** The sort is stable: for every priority, the roles of that priority keep
      their relative order. */
  lemma {:induction false} SortByPriorityStable(c: Catalog, s: seq<RoleId>, p: int)
    ensures OfPriority(c, SortByPriority(c, s), p) == OfPriority(c, s, p)
  {
    if s != [] {
      SortByPriorityStable(c, s[1..], p);
      InsertOfPriority(c, s[0], SortByPriority(c, s[1..]), p);
    }
  }

  // ---------------------------------------------------------------------
  // Greedy packing (`__get_packed_roles`)

  datatype Packing = Packing(packed: seq<RoleId>, available: Availability)

  /** Packs up to `count` roles from the candidates, always looking at the
      last one: an unavailable candidate is dropped; an available one is
      dealt (and, if unique, marked unavailable) and stays in place, so a
      non-unique one is dealt again until the quota is used up. */
  function Pack(c: Catalog, cands: seq<RoleId>, count: int, a: Availability): (p: Packing)
    ensures |p.packed| <= if count > 0 then count else 0
    decreases if count > 0 then count else 0, |cands|
  {
    if count <= 0 || |cands| == 0 then Packing([], a)
    else
      var top := cands[|cands| - 1];
      if !Available(a, top) then Pack(c, cands[..|cands| - 1], count, a)
      else
        var rest := Pack(c, cands, count - 1, if c.unique(top) then a[top := false] else a);
        Packing([top] + rest.packed, rest.available)
  }

  /** One step of the packer on a non-empty candidate list and a positive quota. */
  lemma PackStep(c: Catalog, cands: seq<RoleId>, count: int, a: Availability)
    requires count > 0 && |cands| > 0
    ensures var top := cands[|cands| - 1];
      Pack(c, cands, count, a) ==
        if !Available(a, top) then Pack(c, cands[..|cands| - 1], count, a)
        else
          var rest := Pack(c, cands, count - 1, if c.unique(top) then a[top := false] else a);
          Packing([top] + rest.packed, rest.available)
  {
  }

  /** Appending a packed role and then the rest is appending both at once. */
  lemma AppendPacked(done: seq<RoleId>, top: RoleId, rest: seq<RoleId>)
    ensures done + ([top] + rest) == (done + [top]) + rest
  {
  }

  /** Only the unique roles that were dealt change in the table: they become
      unavailable. Every other entry, and the set of keys, stays as it was. */
  lemma {:induction false} PackFrame(c: Catalog, cands: seq<RoleId>, count: int, a: Availability)
    ensures var p := Pack(c, cands, count, a);
      p.available.Keys == a.Keys &&
      forall x :: x in a ==> p.available[x] == (a[x] && !(c.unique(x) && x in p.packed))
    decreases if count > 0 then count else 0, |cands|
  {
    if count <= 0 || |cands| == 0 {
    } else {
      var top := cands[|cands| - 1];
      if !Available(a, top) {
        PackFrame(c, cands[..|cands| - 1], count, a);
      } else {
        var a' := if c.unique(top) then a[top := false] else a;
        PackFrame(c, cands, count - 1, a');
      }
    }
  }

  /** Every dealt role is one of the candidates and was available beforehand. */
  lemma {:induction false} PackPicksAvailable(c: Catalog, cands: seq<RoleId>, count: int, a: Availability)
    ensures forall x :: x in Pack(c, cands, count, a).packed ==> x in cands && Available(a, x)
    decreases if count > 0 then count else 0, |cands|
  {
    if count <= 0 || |cands| == 0 {
    } else {
      var top := cands[|cands| - 1];
      if !Available(a, top) {
        PackPicksAvailable(c, cands[..|cands| - 1], count, a);
      } else {
        var a' := if c.unique(top) then a[top := false] else a;
        PackPicksAvailable(c, cands, count - 1, a');
      }
    }
  }

  /** A unique role is dealt at most once, and afterwards it is unavailable. */
  lemma {:induction false} PackUniqueOnce(c: Catalog, cands: seq<RoleId>, count: int, a: Availability)
    ensures var p := Pack(c, cands, count, a);
      (forall i, j :: 0 <= i < j < |p.packed| && c.unique(p.packed[i]) ==> p.packed[i] != p.packed[j]) &&
      (forall x :: x in p.packed && c.unique(x) ==> !Available(p.available, x))
    decreases if count > 0 then count else 0, |cands|
  {
    if count <= 0 || |cands| == 0 {
    } else {
      var top := cands[|cands| - 1];
      if !Available(a, top) {
        PackUniqueOnce(c, cands[..|cands| - 1], count, a);
      } else {
        var a' := if c.unique(top) then a[top := false] else a;
        PackUniqueOnce(c, cands, count - 1, a');
        PackPicksAvailable(c, cands, count - 1, a');
        PackFrame(c, cands, count - 1, a');
        var p := Pack(c, cands, count, a);
        var rest := Pack(c, cands, count - 1, a');
        assert p.packed == [top] + rest.packed;
        forall i, j | 0 <= i < j < |p.packed| && c.unique(p.packed[i])
          ensures p.packed[i] != p.packed[j]
        {
          if i == 0 {
            assert p.packed[j] == rest.packed[j - 1];
            assert !Available(a', top);
          } else {
            assert p.packed[i] == rest.packed[i - 1] && p.packed[j] == rest.packed[j - 1];
          }
        }
      }
    }
  }

  /** The packer stops short of its quota only when every candidate has
      become unavailable. */
  lemma {:induction false} PackFillsQuota(c: Catalog, cands: seq<RoleId>, count: int, a: Availability)
    ensures var p := Pack(c, cands, count, a);
      |p.packed| == (if count > 0 then count else 0) ||
      forall x :: x in cands ==> !Available(p.available, x)
    decreases if count > 0 then count else 0, |cands|
  {
    if count <= 0 || |cands| == 0 {
    } else {
      var top := cands[|cands| - 1];
      var p := Pack(c, cands, count, a);
      if !Available(a, top) {
        var init := cands[..|cands| - 1];
        PackFillsQuota(c, init, count, a);
        PackFrame(c, init, count, a);
        assert cands == init + [top];
      } else {
        var a' := if c.unique(top) then a[top := false] else a;
        PackFillsQuota(c, cands, count - 1, a');
      }
    }
  }

  /** Once an available non-unique role is among the candidates, the quota is filled exactly. */
  lemma NonUniqueFillsQuota(c: Catalog, cands: seq<RoleId>, count: int, a: Availability, x: RoleId)
    requires x in cands && Available(a, x) && !c.unique(x)
    ensures |Pack(c, cands, count, a).packed| == if count > 0 then count else 0
  {
    PackFillsQuota(c, cands, count, a);
    PackFrame(c, cands, count, a);
  }

  predicate NonIncreasingPriority(c: Catalog, s: seq<RoleId>)
  {
    forall i, j :: 0 <= i < j < |s| ==> c.priority(s[i]) >= c.priority(s[j])
  }

  /** An available non-unique role at the end of the candidates is never
      dropped: it is dealt for the whole quota and the table is left as it was. */
  lemma {:induction false} PackRepeatsNonUnique(c: Catalog, cands: seq<RoleId>, count: nat, a: Availability)
    requires |cands| > 0 && Available(a, cands[|cands| - 1]) && !c.unique(cands[|cands| - 1])
    ensures Pack(c, cands, count, a) == Packing(seq(count, _ => cands[|cands| - 1]), a)
  {
    if count > 0 {
      PackRepeatsNonUnique(c, cands, count - 1, a);
      assert seq(count, _ => cands[|cands| - 1]) == [cands[|cands| - 1]] + seq(count - 1, _ => cands[|cands| - 1]);
    }
  }

  /** Packing from a list sorted by ascending priority deals roles in
      non-increasing priority order. */
  lemma {:induction false} PackNonIncreasing(c: Catalog, cands: seq<RoleId>, count: int, a: Availability)
    requires SortedByPriority(c, cands)
    ensures NonIncreasingPriority(c, Pack(c, cands, count, a).packed)
    decreases if count > 0 then count else 0, |cands|
  {
    if count <= 0 || |cands| == 0 {
    } else {
      var top := cands[|cands| - 1];
      if !Available(a, top) {
        var init := cands[..|cands| - 1];
        assert SortedByPriority(c, init);
        PackNonIncreasing(c, init, count, a);
        assert Pack(c, cands, count, a) == Pack(c, init, count, a) by {
          PackStep(c, cands, count, a);
        }
      } else {
        var a' := if c.unique(top) then a[top := false] else a;
        var rest := Pack(c, cands, count - 1, a').packed;
        var p := [top] + rest;
        assert Pack(c, cands, count, a).packed == p by {
          PackStep(c, cands, count, a);
        }
        assert NonIncreasingPriority(c, rest) by {
          PackNonIncreasing(c, cands, count - 1, a');
        }
        assert forall x :: x in rest ==> c.priority(x) <= c.priority(top) by {
          PackPicksAvailable(c, cands, count - 1, a');
          forall x | x in rest
            ensures c.priority(x) <= c.priority(top)
          {
            var k :| 0 <= k < |cands| && cands[k] == x;
            assert k == |cands| - 1 || k < |cands| - 1;
          }
        }
        forall i, j | 0 <= i < j < |p|
          ensures c.priority(p[i]) >= c.priority(p[j])
        {
          assert p[j] == rest[j - 1] && rest[j - 1] in rest;
          if i > 0 {
            assert p[i] == rest[i - 1];
          } else {
            assert p[i] == top;
          }
        }
      }
    }
  }

  /** Every candidate that was available and outranks a dealt role was
      dealt too, and is unique. */
  predicate TakesHighest(c: Catalog, cands: seq<RoleId>, a: Availability, packed: seq<RoleId>)
  {
    forall x, y :: x in packed && y in cands && Available(a, y) && c.priority(y) > c.priority(x) ==>
      y in packed && c.unique(y)
  }

  /** The greedy choice: packing from a list sorted by ascending priority
      never passes over an available candidate of higher priority than a
      dealt role, and such a candidate is unique (a non-unique one would have
      taken the whole quota). */
  lemma {:induction false} PackTakesHighest(c: Catalog, cands: seq<RoleId>, count: int, a: Availability)
    requires SortedByPriority(c, cands)
    ensures TakesHighest(c, cands, a, Pack(c, cands, count, a).packed)
    decreases if count > 0 then count else 0, |cands|
  {
    if count > 0 && |cands| > 0 {
      var top := cands[|cands| - 1];
      if !Available(a, top) {
        var init := cands[..|cands| - 1];
        assert SortedByPriority(c, init);
        PackTakesHighest(c, init, count, a);
        assert Pack(c, cands, count, a) == Pack(c, init, count, a) by {
          PackStep(c, cands, count, a);
        }
        TakesHighestDrop(c, cands, a, Pack(c, init, count, a).packed);
      } else {
        var a' := if c.unique(top) then a[top := false] else a;
        var rest := Pack(c, cands, count - 1, a').packed;
        PackTakesHighest(c, cands, count - 1, a');
        assert Pack(c, cands, count, a).packed == [top] + rest by {
          PackStep(c, cands, count, a);
        }
        assert !c.unique(top) ==> forall x :: x in rest ==> x == top by {
          if !c.unique(top) {
            PackRepeatsNonUnique(c, cands, count - 1, a);
          }
        }
        TakesHighestDeal(c, cands, a, a', rest);
      }
    }
  }

  /** Once an available non-unique candidate is reached, it takes the rest of
      the quota: the quota is filled, and nothing of lower priority is dealt. */
  lemma PackStopsAtNonUnique(c: Catalog, cands: seq<RoleId>, count: int, a: Availability, y: RoleId)
    requires SortedByPriority(c, cands)
    requires y in cands && Available(a, y) && !c.unique(y)
    ensures var p := Pack(c, cands, count, a);
      |p.packed| == (if count > 0 then count else 0) &&
      forall x :: x in p.packed ==> c.priority(x) >= c.priority(y)
  {
    PackTakesHighest(c, cands, count, a);
    NonUniqueFillsQuota(c, cands, count, a, y);
  }

  /** `TakesHighest` survives dropping an unavailable last candidate. */
  lemma TakesHighestDrop(c: Catalog, cands: seq<RoleId>, a: Availability, packed: seq<RoleId>)
    requires |cands| > 0 && !Available(a, cands[|cands| - 1])
    requires TakesHighest(c, cands[..|cands| - 1], a, packed)
    ensures TakesHighest(c, cands, a, packed)
  {
    forall y | y in cands && Available(a, y)
      ensures y in cands[..|cands| - 1]
    {
      var k :| 0 <= k < |cands| && cands[k] == y;
      assert cands[..|cands| - 1][k] == y;
    }
  }

  /** `TakesHighest` survives dealing the last candidate, the highest in
      priority, in front of the rest of the packing. */
  lemma TakesHighestDeal(c: Catalog, cands: seq<RoleId>, a: Availability, a': Availability, rest: seq<RoleId>)
    requires SortedByPriority(c, cands) && |cands| > 0
    requires var top := cands[|cands| - 1];
      Available(a, top) && a' == (if c.unique(top) then a[top := false] else a)
    requires TakesHighest(c, cands, a', rest)
    requires !c.unique(cands[|cands| - 1]) ==> forall x :: x in rest ==> x == cands[|cands| - 1]
    ensures TakesHighest(c, cands, a, [cands[|cands| - 1]] + rest)
  {
    var top := cands[|cands| - 1];
    forall x, y | x in [top] + rest && y in cands && Available(a, y) && c.priority(y) > c.priority(x)
      ensures y in [top] + rest && c.unique(y)
    {
      var k :| 0 <= k < |cands| && cands[k] == y;
      assert c.priority(y) <= c.priority(top) by {
        assert k == |cands| - 1 || k < |cands| - 1;
      }
      assert x in rest;
      if y != top {
        assert Available(a', y);
      }
    }
  }

  // ---------------------------------------------------------------------
  // Role generation (`__generate_roles`, before the shuffle)

  /** The available role ids, in enumeration order. */
  function AvailableInOrder(a: Availability): (r: seq<RoleId>)
    ensures forall x :: x in r <==> Available(a, x)
    ensures InEnumOrder(r)
  {
    AllRoleIdsEnumerate();
    AllRoleIdsInOrder();
    KeepKeepsOrder(a, AllRoleIds);
    Keep(a, AllRoleIds)
  }

  function Keep(a: Availability, ids: seq<RoleId>): (r: seq<RoleId>)
    ensures forall x :: x in r <==> x in ids && Available(a, x)
  {
    if ids == [] then []
    else (if Available(a, ids[0]) then [ids[0]] else []) + Keep(a, ids[1..])
  }

  /** One step of `Keep`, spelled out for the proofs that unfold it. */
  lemma KeepStep(a: Availability, ids: seq<RoleId>)
    requires ids != []
    ensures Keep(a, ids) == (if Available(a, ids[0]) then [ids[0]] else []) + Keep(a, ids[1..])
  {
  }

  /** Keeping the available roles of a list in enumeration order leaves them in that order. */
  lemma {:induction false} KeepKeepsOrder(a: Availability, ids: seq<RoleId>)
    requires InEnumOrder(ids)
    ensures InEnumOrder(Keep(a, ids))
  {
    if ids != [] {
      InEnumOrderTail(ids);
      KeepKeepsOrder(a, ids[1..]);
      KeepStep(a, ids);
      if Available(a, ids[0]) {
        InEnumOrderHead(ids);
        InEnumOrderCons(ids[0], Keep(a, ids[1..]));
      }
    }
  }

  /** The civilian quota: the players not reserved for the mafia, never negative. */
  function CivilianQuota(players: nat, mafiaCount: int): (q: nat)
    ensures q >= players - mafiaCount
    ensures q == 0 || q == players - mafiaCount
  {
    if players - mafiaCount > 0 then players - mafiaCount else 0
  }

  datatype Generation = Generation(mafias: seq<RoleId>, civilians: seq<RoleId>, available: Availability)

  /** The roles the engine deals before shuffling: the Mafia team packed to
      `mafiaCount`, then the Civilian team packed to the rest of the players,
      both from the roles available at the start and with the table updated
      by each packing in turn. */
  function Generate(c: Catalog, a: Availability, mafiaCount: int, players: nat): Generation
  {
    var roles := AvailableInOrder(a);
    var m := Pack(c, SortByPriority(c, RolesByTeam(c, roles, MafiaTeam)), mafiaCount, a);
    var v := Pack(c, SortByPriority(c, RolesByTeam(c, roles, CivilianTeam)), CivilianQuota(players, mafiaCount), m.available);
    Generation(m.packed, v.packed, v.available)
  }

  /** `roles` is a permutation of what `Generate` deals, and `after` is the table it leaves. */
  predicate GeneratedFrom(c: Catalog, a: Availability, mafiaCount: int, players: nat,
                          roles: seq<RoleId>, after: Availability)
  {
    var g := Generate(c, a, mafiaCount, players);
    multiset(roles) == multiset(g.mafias + g.civilians) && after == g.available
  }

  /** Every generated role was available at the start; Mafia-team roles fill
      at most the mafia quota and Civilian-team roles at most the civilian quota. */
  lemma GenerateRespectsQuotas(c: Catalog, a: Availability, mafiaCount: int, players: nat)
    ensures var g := Generate(c, a, mafiaCount, players);
      (forall x :: x in g.mafias ==> c.team(x) == MafiaTeam && Available(a, x)) &&
      (forall x :: x in g.civilians ==> c.team(x) == CivilianTeam && Available(a, x)) &&
      |g.mafias| <= (if mafiaCount > 0 then mafiaCount else 0) &&
      |g.civilians| <= CivilianQuota(players, mafiaCount)
  {
    var roles := AvailableInOrder(a);
    var mc := SortByPriority(c, RolesByTeam(c, roles, MafiaTeam));
    var cc := SortByPriority(c, RolesByTeam(c, roles, CivilianTeam));
    var m := Pack(c, mc, mafiaCount, a);
    PackPicksAvailable(c, mc, mafiaCount, a);
    PackPicksAvailable(c, cc, CivilianQuota(players, mafiaCount), m.available);
    PackFrame(c, mc, mafiaCount, a);
    forall x | x in mc ensures c.team(x) == MafiaTeam {
      assert x in multiset(mc);
    }
    forall x | x in cc ensures c.team(x) == CivilianTeam {
      assert x in multiset(cc);
    }
  }

  /** When there are no more mafia seats than players, at most one role is
      generated per player. */
  lemma GenerateFitsPlayers(c: Catalog, a: Availability, mafiaCount: int, players: nat)
    requires 0 <= mafiaCount <= players
    ensures var g := Generate(c, a, mafiaCount, players);
      |g.mafias + g.civilians| <= players
  {
  }

  /** With no mafia seats, as a fresh session has, no role is packed for the Mafia team. */
  lemma NoMafiaWithoutSeats(c: Catalog, a: Availability, players: nat)
    ensures Generate(c, a, 0, players).mafias == []
  {
  }

  /** A unique role occurs at most once in `s`. */
  predicate UniqueAtMostOnce(c: Catalog, s: seq<RoleId>)
  {
    forall i, j :: 0 <= i < j < |s| && c.unique(s[i]) ==> s[i] != s[j]
  }

  /** Two lists each holding every unique role at most once, and sharing no
      unique role, hold every unique role at most once together. */
  lemma UniqueAtMostOnceAppend(c: Catalog, s: seq<RoleId>, t: seq<RoleId>)
    requires UniqueAtMostOnce(c, s) && UniqueAtMostOnce(c, t)
    requires forall x :: x in s && c.unique(x) ==> x !in t
    ensures UniqueAtMostOnce(c, s + t)
  {
    var all := s + t;
    forall i, j | 0 <= i < j < |all| && c.unique(all[i])
      ensures all[i] != all[j]
    {
      if j < |s| {
        assert all[i] == s[i] && all[j] == s[j];
      } else if i >= |s| {
        assert all[i] == t[i - |s|] && all[j] == t[j - |s|];
      } else {
        assert all[i] in s && all[j] in t;
      }
    }
  }

  /** Two packings in a row, the second from the table the first leaves,
      deal each unique role at most once between them and leave it unavailable. */
  lemma PackTwiceUniqueOnce(c: Catalog, first: seq<RoleId>, n: int, second: seq<RoleId>, q: int, a: Availability)
    ensures var m := Pack(c, first, n, a);
      var v := Pack(c, second, q, m.available);
      UniqueAtMostOnce(c, m.packed + v.packed) &&
      forall x :: x in m.packed + v.packed && c.unique(x) ==> !Available(v.available, x)
  {
    var m := Pack(c, first, n, a);
    var v := Pack(c, second, q, m.available);
    assert UniqueAtMostOnce(c, m.packed) &&
      forall x :: x in m.packed && c.unique(x) ==> !Available(m.available, x) by {
      PackUniqueOnce(c, first, n, a);
    }
    assert UniqueAtMostOnce(c, v.packed) &&
      forall x :: x in v.packed && c.unique(x) ==> !Available(v.available, x) by {
      PackUniqueOnce(c, second, q, m.available);
    }
    assert forall x :: x in v.packed ==> Available(m.available, x) by {
      PackPicksAvailable(c, second, q, m.available);
    }
    assert forall x :: !Available(m.available, x) ==> !Available(v.available, x) by {
      PackFrame(c, second, q, m.available);
    }
    UniqueAtMostOnceAppend(c, m.packed, v.packed);
  }

  /** A unique role occurs at most once among all generated roles, and is
      unavailable afterwards. */
  lemma GenerateUniqueOnce(c: Catalog, a: Availability, mafiaCount: int, players: nat)
    ensures var g := Generate(c, a, mafiaCount, players);
      var all := g.mafias + g.civilians;
      (forall i, j :: 0 <= i < j < |all| && c.unique(all[i]) ==> all[i] != all[j]) &&
      (forall x :: x in all && c.unique(x) ==> !Available(g.available, x))
  {
    var roles := AvailableInOrder(a);
    PackTwiceUniqueOnce(c, SortByPriority(c, RolesByTeam(c, roles, MafiaTeam)), mafiaCount,
                        SortByPriority(c, RolesByTeam(c, roles, CivilianTeam)), CivilianQuota(players, mafiaCount), a);
  }

  /** The table after generation differs from the one before only in the
      unique roles that were dealt, which are now unavailable. */
  lemma GenerateFrame(c: Catalog, a: Availability, mafiaCount: int, players: nat)
    ensures var g := Generate(c, a, mafiaCount, players);
      g.available.Keys == a.Keys &&
      forall x :: x in a ==> g.available[x] == (a[x] && !(c.unique(x) && x in g.mafias + g.civilians))
  {
    var roles := AvailableInOrder(a);
    var mc := SortByPriority(c, RolesByTeam(c, roles, MafiaTeam));
    var cc := SortByPriority(c, RolesByTeam(c, roles, CivilianTeam));
    var m := Pack(c, mc, mafiaCount, a);
    PackFrame(c, mc, mafiaCount, a);
    PackFrame(c, cc, CivilianQuota(players, mafiaCount), m.available);
  }

  /** A catalog in which Mafia is the only Mafia-team role, Healer and
      Detective are unique and outrank the Villager. */
  function ExampleCatalog(): Catalog
  {
    Catalog(ExampleTeam, ExamplePriority, ExampleUnique)
  }

  function ExampleTeam(id: RoleId): Team
  {
    if id == Mafia then MafiaTeam else CivilianTeam
  }

  function ExamplePriority(id: RoleId): int
  {
    if id == Healer then 2 else if id == Detective then 1 else 0
  }

  function ExampleUnique(id: RoleId): bool
  {
    id == Healer || id == Detective
  }

  const AllEnabled: Availability := map[Villager := true, Mafia := true, Healer := true, Detective := true]

  /** Eight players, two mafia seats, every role enabled: two Mafia, then
      Healer, Detective and four Villagers, highest priority first. */
  lemma ExampleEightPlayers()
    ensures var g := Generate(ExampleCatalog(), AllEnabled, 2, 8);
      g.mafias == [Mafia, Mafia] &&
      g.civilians == [Healer, Detective, Villager, Villager, Villager, Villager]
  {
    ExampleEnabledInOrder();
    ExampleCandidates();
    ExamplePacking();
  }

  /** The same with Detective banned: the civilian seats go to Healer and Villagers. */
  lemma ExampleDetectiveBanned()
    ensures var g := Generate(ExampleCatalog(), AllEnabled[Detective := false], 2, 8);
      g.mafias == [Mafia, Mafia] &&
      g.civilians == [Healer, Villager, Villager, Villager, Villager, Villager]
  {
    ExampleEnabledInOrder();
    ExampleCandidates();
    ExamplePacking();
  }

  lemma ExampleEnabledInOrder()
    ensures AvailableInOrder(AllEnabled) == AllRoleIds
    ensures AvailableInOrder(AllEnabled[Detective := false]) == [Villager, Mafia, Healer]
  {
    ExampleSuffixes();
    ExampleKeepAll();
    ExampleKeepBanned();
  }

  lemma ExampleSuffixes()
    ensures AllRoleIds[1..] == [Mafia, Healer, Detective]
    ensures [Mafia, Healer, Detective][1..] == [Healer, Detective]
    ensures [Healer, Detective][1..] == [Detective]
    ensures [Detective][1..] == []
  {
  }

  lemma ExampleKeepAll()
    ensures Keep(AllEnabled, AllRoleIds) == AllRoleIds
  {
    ExampleSuffixes();
    var a := AllEnabled;
    assert Available(a, Villager) && Available(a, Mafia) && Available(a, Healer) && Available(a, Detective);
    KeepStep(a, [Detective]);
    KeepStep(a, [Healer, Detective]);
    KeepStep(a, [Mafia, Healer, Detective]);
    KeepStep(a, AllRoleIds);
  }

  lemma ExampleKeepBanned()
    ensures Keep(AllEnabled[Detective := false], AllRoleIds) == [Villager, Mafia, Healer]
  {
    ExampleSuffixes();
    var b := AllEnabled[Detective := false];
    assert Available(b, Villager) && Available(b, Mafia) && Available(b, Healer) && !Available(b, Detective);
    KeepStep(b, [Detective]);
    KeepStep(b, [Healer, Detective]);
    KeepStep(b, [Mafia, Healer, Detective]);
    KeepStep(b, AllRoleIds);
  }

  lemma ExampleCandidates()
    ensures SortByPriority(ExampleCatalog(), RolesByTeam(ExampleCatalog(), AllRoleIds, MafiaTeam)) == [Mafia]
    ensures SortByPriority(ExampleCatalog(), RolesByTeam(ExampleCatalog(), AllRoleIds, CivilianTeam))
            == [Villager, Detective, Healer]
    ensures SortByPriority(ExampleCatalog(), RolesByTeam(ExampleCatalog(), [Villager, Mafia, Healer], MafiaTeam)) == [Mafia]
    ensures SortByPriority(ExampleCatalog(), RolesByTeam(ExampleCatalog(), [Villager, Mafia, Healer], CivilianTeam))
            == [Villager, Healer]
  {
    ExampleTeamsAll();
    ExampleTeamsBanned();
    ExampleSortAll();
    ExampleSortBanned();
  }

  lemma ExampleTeamsAll()
    ensures RolesByTeam(ExampleCatalog(), AllRoleIds, MafiaTeam) == [Mafia]
    ensures RolesByTeam(ExampleCatalog(), AllRoleIds, CivilianTeam) == [Villager, Healer, Detective]
  {
    ExampleMafiaTeamAll();
    ExampleCivilianTeamAll();
  }

  lemma ExampleMafiaTeamAll()
    ensures RolesByTeam(ExampleCatalog(), AllRoleIds, MafiaTeam) == [Mafia]
  {
    ExampleSuffixes();
    var c := ExampleCatalog();
    assert RolesByTeam(c, [Detective], MafiaTeam) == [];
    assert RolesByTeam(c, [Healer, Detective], MafiaTeam) == [];
    assert RolesByTeam(c, [Mafia, Healer, Detective], MafiaTeam) == [Mafia];
  }

  lemma ExampleCivilianTeamAll()
    ensures RolesByTeam(ExampleCatalog(), AllRoleIds, CivilianTeam) == [Villager, Healer, Detective]
  {
    ExampleSuffixes();
    var c := ExampleCatalog();
    assert c.team(Mafia) == MafiaTeam;
    assert c.team(Villager) == c.team(Healer) == c.team(Detective) == CivilianTeam;
    RolesByTeamStep(c, [Detective], CivilianTeam);
    RolesByTeamStep(c, [Healer, Detective], CivilianTeam);
    RolesByTeamStep(c, [Mafia, Healer, Detective], CivilianTeam);
    RolesByTeamStep(c, AllRoleIds, CivilianTeam);
  }

  lemma ExampleTeamsBanned()
    ensures RolesByTeam(ExampleCatalog(), [Villager, Mafia, Healer], MafiaTeam) == [Mafia]
    ensures RolesByTeam(ExampleCatalog(), [Villager, Mafia, Healer], CivilianTeam) == [Villager, Healer]
  {
    var c := ExampleCatalog();
    assert [Villager, Mafia, Healer][1..] == [Mafia, Healer];
    assert [Mafia, Healer][1..] == [Healer];
    assert [Healer][1..] == [];
    assert RolesByTeam(c, [Healer], MafiaTeam) == [];
    assert RolesByTeam(c, [Mafia, Healer], MafiaTeam) == [Mafia];
    assert RolesByTeam(c, [Healer], CivilianTeam) == [Healer];
    assert RolesByTeam(c, [Mafia, Healer], CivilianTeam) == [Healer];
  }

  lemma ExampleSortAll()
    ensures SortByPriority(ExampleCatalog(), [Mafia]) == [Mafia]
    ensures SortByPriority(ExampleCatalog(), [Villager, Healer, Detective]) == [Villager, Detective, Healer]
  {
    var c := ExampleCatalog();
    assert [Mafia][1..] == [];
    ExampleSortPair();
    assert [Villager, Healer, Detective][1..] == [Healer, Detective];
    assert InsertByPriority(c, Villager, [Detective, Healer]) == [Villager, Detective, Healer];
  }

  lemma ExampleSortPair()
    ensures SortByPriority(ExampleCatalog(), [Healer, Detective]) == [Detective, Healer]
  {
    var c := ExampleCatalog();
    assert [Healer, Detective][1..] == [Detective];
    assert [Detective][1..] == [];
    assert SortByPriority(c, [Detective]) == [Detective];
    assert InsertByPriority(c, Healer, [Detective]) == [Detective, Healer];
  }

  lemma ExampleSortBanned()
    ensures SortByPriority(ExampleCatalog(), [Villager, Healer]) == [Villager, Healer]
  {
    var c := ExampleCatalog();
    assert [Villager, Healer][1..] == [Healer];
    assert [Healer][1..] == [];
    assert SortByPriority(c, [Healer]) == [Healer];
    assert InsertByPriority(c, Villager, [Healer]) == [Villager, Healer];
  }

  lemma ExamplePacking()
    ensures Pack(ExampleCatalog(), [Mafia], 2, AllEnabled) == Packing([Mafia, Mafia], AllEnabled)
    ensures Pack(ExampleCatalog(), [Mafia], 2, AllEnabled[Detective := false])
            == Packing([Mafia, Mafia], AllEnabled[Detective := false])
    ensures Pack(ExampleCatalog(), [Villager, Detective, Healer], 6, AllEnabled).packed
            == [Healer, Detective, Villager, Villager, Villager, Villager]
    ensures Pack(ExampleCatalog(), [Villager, Healer], 6, AllEnabled[Detective := false]).packed
            == [Healer, Villager, Villager, Villager, Villager, Villager]
  {
    ExamplePackMafia();
    ExamplePackAll();
    ExamplePackBanned();
  }

  lemma ExamplePackMafia()
    ensures Pack(ExampleCatalog(), [Mafia], 2, AllEnabled) == Packing([Mafia, Mafia], AllEnabled)
    ensures Pack(ExampleCatalog(), [Mafia], 2, AllEnabled[Detective := false])
            == Packing([Mafia, Mafia], AllEnabled[Detective := false])
  {
    var c := ExampleCatalog();
    PackRepeatsNonUnique(c, [Mafia], 2, AllEnabled);
    PackRepeatsNonUnique(c, [Mafia], 2, AllEnabled[Detective := false]);
    assert seq(2, _ => Mafia) == [Mafia, Mafia];
  }

  lemma ExamplePackAll()
    ensures Pack(ExampleCatalog(), [Villager, Detective, Healer], 6, AllEnabled).packed
            == [Healer, Detective, Villager, Villager, Villager, Villager]
  {
    var c := ExampleCatalog();
    var a1 := AllEnabled[Healer := false];
    ExamplePackWithoutHealer();
    assert Available(AllEnabled, Healer) && c.unique(Healer) && !Available(a1, Healer);
    assert [Villager, Detective, Healer][..2] == [Villager, Detective];
    PackStep(c, [Villager, Detective, Healer], 5, a1);
    PackStep(c, [Villager, Detective, Healer], 6, AllEnabled);
  }

  lemma ExamplePackWithoutHealer()
    ensures Pack(ExampleCatalog(), [Villager, Detective], 5, AllEnabled[Healer := false]).packed
            == [Detective, Villager, Villager, Villager, Villager]
  {
    var c := ExampleCatalog();
    var a1 := AllEnabled[Healer := false];
    var a2 := a1[Detective := false];
    PackRepeatsNonUnique(c, [Villager], 4, a2);
    assert seq(4, _ => Villager) == [Villager, Villager, Villager, Villager];
    assert Available(a1, Detective) && c.unique(Detective) && !Available(a2, Detective);
    assert [Villager, Detective][..1] == [Villager];
    PackStep(c, [Villager, Detective], 4, a2);
    PackStep(c, [Villager, Detective], 5, a1);
  }

  lemma ExamplePackBanned()
    ensures Pack(ExampleCatalog(), [Villager, Healer], 6, AllEnabled[Detective := false]).packed
            == [Healer, Villager, Villager, Villager, Villager, Villager]
  {
    var c := ExampleCatalog();
    var b := AllEnabled[Detective := false];
    var b1 := b[Healer := false];
    PackRepeatsNonUnique(c, [Villager], 5, b1);
    assert seq(5, _ => Villager) == [Villager, Villager, Villager, Villager, Villager];
    assert [Villager, Healer][..1] == [Villager];
    PackStep(c, [Villager, Healer], 5, b1);
    PackStep(c, [Villager, Healer], 6, b);
  }

  // ---------------------------------------------------------------------
  // Shuffle (`random.shuffle`)

  /** Fisher-Yates, as the library's shuffle does it: position i, from the
      last down to 1, swaps with position draw(i) mod (i + 1). `draw` stands
      for the random number generator; only the permutation is promised. */
  method Shuffle<T>(s: seq<T>, draw: nat -> nat) returns (r: seq<T>)
    ensures multiset(r) == multiset(s)
    ensures |r| == |s|
  {
    r := s;
    var i := |r|;
    while i > 1
      invariant 0 <= i <= |r| == |s|
      invariant multiset(r) == multiset(s)
    {
      i := i - 1;
      var j := draw(i) % (i + 1);
      r := r[i := r[j]][j := r[i]];
    }
  }
}
