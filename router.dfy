/**
 * The router (`gather_target_forums`): the forums a member's message is copied
 * to. The male forums come first if the member has the male role, then the
 * female forums if the member has the female role; only if that gives no
 * forum identifier at all are the default forums used. Repeated identifiers
 * are dropped keeping the first, and identifiers that are not forum channels
 * of the guild are skipped.
 */
module Router {

  import opened Platform
  import opened Collections

  /** The routing part of the configuration, fixed at start-up. */
  datatype RoutingConfig = RoutingConfig(
    maleRoleId: int,
    femaleRoleId: int,
    maleForumIds: seq<int>,
    femaleForumIds: seq<int>,
    defaultForumIds: seq<int>)

  /** The forum identifiers the member's roles select, before any fallback. */
  function RoleForums(cfg: RoutingConfig, roleIds: seq<int>): (ids: seq<int>)
    ensures forall id :: id in ids <==>
      || (cfg.maleRoleId in roleIds && id in cfg.maleForumIds)
      || (cfg.femaleRoleId in roleIds && id in cfg.femaleForumIds)
  {
    (if cfg.maleRoleId in roleIds then cfg.maleForumIds else [])
    + (if cfg.femaleRoleId in roleIds then cfg.femaleForumIds else [])
  }

  /** `id_candidates`: the role forums, or the default forums when the roles select no identifier. */
  function Candidates(cfg: RoutingConfig, roleIds: seq<int>): (ids: seq<int>)
    ensures forall id :: id in ids <==> id in RoleForums(cfg, roleIds) || (RoleForums(cfg, roleIds) == [] && id in cfg.defaultForumIds)
    ensures ids == [] <==> RoleForums(cfg, roleIds) == [] && cfg.defaultForumIds == []
  {
    var selected := RoleForums(cfg, roleIds);
    if selected == [] then cfg.defaultForumIds else selected
  }

  /**
   * The forums the loop keeps from `candidates` when the identifiers in
   * `seen` have already been handled.
   */
  function Route(candidates: seq<int>, seen: set<int>, guild: Guild): seq<int> {
    if candidates == [] then []
    else
      var id := candidates[0];
      if id in seen then Route(candidates[1..], seen, guild)
      else if IsForum(guild, id) then [id] + Route(candidates[1..], seen + {id}, guild)
      else Route(candidates[1..], seen + {id}, guild)
  }

  /** The position of the first occurrence of `x` in `s`. */
  function IndexOf(s: seq<int>, x: int): (k: nat)
    requires x in s
    ensures k < |s| && s[k] == x
    ensures forall j :: 0 <= j < k ==> s[j] != x
  {
    if s[0] == x then 0 else 1 + IndexOf(s[1..], x)
  }

  /** `gather_target_forums`, with the guild's channel cache as `guild`. */
  method GatherTargetForums(cfg: RoutingConfig, roleIds: seq<int>, guild: Guild) returns (forums: seq<int>)
    ensures forums == Route(Candidates(cfg, roleIds), {}, guild)
    ensures NoDuplicates(forums)
    ensures forall id :: id in forums <==> id in Candidates(cfg, roleIds) && IsForum(guild, id)
    ensures InFirstSeenOrder(forums, Candidates(cfg, roleIds))
  {
    var hasMale := cfg.maleRoleId in roleIds;
    var hasFemale := cfg.femaleRoleId in roleIds;
    var candidates: seq<int> := [];
    if hasMale {
      candidates := candidates + cfg.maleForumIds;
    }
    if hasFemale {
      candidates := candidates + cfg.femaleForumIds;
    }
    if candidates == [] {
      candidates := candidates + cfg.defaultForumIds;
    }
    assert candidates == Candidates(cfg, roleIds);

    forums := KeepForums(candidates, guild);
    RouteMembers(candidates, {}, guild);
    RouteNoDuplicates(candidates, {}, guild);
    RouteKeepsFirstSeenOrder(candidates, {}, guild);
  }

  /** The loop of `gather_target_forums`: drop repeated identifiers, keep forum channels. */
  method KeepForums(candidates: seq<int>, guild: Guild) returns (forums: seq<int>)
    ensures forums == Route(candidates, {}, guild)
  {
    var seen: set<int> := {};
    forums := [];
    for i := 0 to |candidates|
      invariant forums + Route(candidates[i..], seen, guild) == Route(candidates, {}, guild)
    {
      var id := candidates[i];
      var rest := candidates[i + 1..];
      assert candidates[i..][0] == id && candidates[i..][1..] == rest;
      if id in seen {
        assert Route(candidates[i..], seen, guild) == Route(rest, seen, guild);
        continue;
      }
      if IsForum(guild, id) {
        assert Route(candidates[i..], seen, guild) == [id] + Route(rest, seen + {id}, guild);
        AppendAssoc(forums, [id], Route(rest, seen + {id}, guild));
        forums := forums + [id];
      } else {
        assert Route(candidates[i..], seen, guild) == Route(rest, seen + {id}, guild);
      }
      seen := seen + {id};
    }
    assert candidates[|candidates|..] == [];
  }

  /** A routed forum is a forum candidate not seen before, and every such candidate is routed. */
  lemma {:induction false} RouteMembers(candidates: seq<int>, seen: set<int>, guild: Guild)
    ensures forall id :: id in Route(candidates, seen, guild) <==> id in candidates && id !in seen && IsForum(guild, id)
  {
    if candidates != [] {
      var id := candidates[0];
      RouteMembers(candidates[1..], seen, guild);
      RouteMembers(candidates[1..], seen + {id}, guild);
      assert forall x :: x in candidates <==> x == id || x in candidates[1..];
    }
  }

  /** No forum is routed twice. */
  lemma {:induction false} RouteNoDuplicates(candidates: seq<int>, seen: set<int>, guild: Guild)
    ensures NoDuplicates(Route(candidates, seen, guild))
  {
    if candidates != [] {
      var id := candidates[0];
      RouteNoDuplicates(candidates[1..], seen, guild);
      RouteNoDuplicates(candidates[1..], seen + {id}, guild);
      if id !in seen && IsForum(guild, id) {
        var rest := Route(candidates[1..], seen + {id}, guild);
        RouteMembers(candidates[1..], seen + {id}, guild);
        assert id !in rest;
        var r := [id] + rest;
        forall i, j | 0 <= i < j < |r| ensures r[i] != r[j] {
          if i == 0 {
            assert r[j] == rest[j - 1];
          } else {
            assert r[i] == rest[i - 1] && r[j] == rest[j - 1];
          }
        }
      }
    }
  }

  /** Every element of `r` occurs in `s`, and they occur there first in the order of `r`. */
  predicate InFirstSeenOrder(r: seq<int>, s: seq<int>) {
    && (forall i :: 0 <= i < |r| ==> r[i] in s)
    && (forall i, j :: 0 <= i < j < |r| ==> IndexOf(s, r[i]) < IndexOf(s, r[j]))
  }

  /** Routed forums keep the order in which they first appear among the candidates. */
  lemma {:induction false} RouteKeepsFirstSeenOrder(candidates: seq<int>, seen: set<int>, guild: Guild)
    ensures InFirstSeenOrder(Route(candidates, seen, guild), candidates)
  {
    if candidates != [] {
      var id := candidates[0];
      var seen' := if id in seen then seen else seen + {id};
      var rest := Route(candidates[1..], seen', guild);
      RouteKeepsFirstSeenOrder(candidates[1..], seen', guild);
      RouteMembers(candidates[1..], seen', guild);
      if id in seen {
        OrderTail(rest, candidates);
      } else if IsForum(guild, id) {
        OrderCons(rest, candidates);
      } else {
        OrderTail(rest, candidates);
      }
    }
  }

  lemma OrderTail(r: seq<int>, s: seq<int>)
    requires |s| > 0 && s[0] !in r
    requires InFirstSeenOrder(r, s[1..])
    ensures InFirstSeenOrder(r, s)
  {
    forall i | 0 <= i < |r| ensures r[i] in s && IndexOf(s, r[i]) == 1 + IndexOf(s[1..], r[i]) {
      IndexOfTail(s, r[i]);
    }
  }

  lemma OrderCons(r: seq<int>, s: seq<int>)
    requires |s| > 0 && s[0] !in r
    requires forall x :: x in r ==> x in s[1..]
    requires InFirstSeenOrder(r, s[1..])
    ensures InFirstSeenOrder([s[0]] + r, s)
  {
    var r' := [s[0]] + r;
    forall i | 0 <= i < |r'| ensures r'[i] in s {
      if i > 0 {
        assert r'[i] == r[i - 1] && r[i - 1] in r;
      }
    }
    forall i, j | 0 <= i < j < |r'| ensures IndexOf(s, r'[i]) < IndexOf(s, r'[j]) {
      assert r'[j] == r[j - 1] && r[j - 1] in r;
      IndexOfTail(s, r'[j]);
      if i > 0 {
        assert r'[i] == r[i - 1] && r[i - 1] in r;
        assert IndexOf(s[1..], r[i - 1]) < IndexOf(s[1..], r[j - 1]);
        IndexOfTail(s, r'[i]);
      } else {
        assert r'[i] == s[0] && IndexOf(s, s[0]) == 0;
      }
    }
  }

  lemma IndexOfTail(s: seq<int>, x: int)
    requires |s| > 0 && x in s[1..] && x != s[0]
    ensures x in s && IndexOf(s, x) == 1 + IndexOf(s[1..], x)
  {
    assert s == [s[0]] + s[1..];
  }

  /**
   * What the router returns, stated on the configuration: exactly the guild's
   * forums among the selected lists, the default list serving only when the
   * member's roles select no identifier, even when a role matched a list that is empty.
   */
  lemma TargetForumsFromRoles(cfg: RoutingConfig, roleIds: seq<int>, guild: Guild, id: int)
    ensures id in Route(Candidates(cfg, roleIds), {}, guild) <==>
      && IsForum(guild, id)
      && (|| (cfg.maleRoleId in roleIds && id in cfg.maleForumIds)
          || (cfg.femaleRoleId in roleIds && id in cfg.femaleForumIds)
          || (RoleForums(cfg, roleIds) == [] && id in cfg.defaultForumIds))
  {
    RouteMembers(Candidates(cfg, roleIds), {}, guild);
  }

  /** The route only depends on which identifiers are forums. */
  lemma {:induction false} RouteSameForums(candidates: seq<int>, seen: set<int>, g1: Guild, g2: Guild)
    requires forall id :: IsForum(g1, id) == IsForum(g2, id)
    ensures Route(candidates, seen, g1) == Route(candidates, seen, g2)
  {
    if candidates != [] {
      RouteSameForums(candidates[1..], seen, g1, g2);
      RouteSameForums(candidates[1..], seen + {candidates[0]}, g1, g2);
    }
  }
}
