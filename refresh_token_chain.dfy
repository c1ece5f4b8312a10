/**
 * The stored refresh tokens as a value: a keyed table of records, each with a
 * validity flag and a forward `next` link to the token that replaced it.
 * This module gives the specification functions the service's methods are
 * proved against, and the lemmas about them.
 */
module RefreshTokenChain {
  import opened Wrappers

  /** The token id (the JWT `jti` claim), primary key of a stored refresh token. */
  type Jti = string

  /** A stored refresh token: its id, whether it may still be used, and its successor. */
  datatype RefreshToken = RefreshToken(id: Jti, isValid: bool, next: Option<Jti>)

  /** The repository's contents, by id. */
  type Store = map<Jti, RefreshToken>

  /** The record `buildRefreshToken` makes for a newly issued token. */
  function BuildRefreshToken(jti: Jti): (t: RefreshToken)
    ensures t.id == jti && t.isValid && t.next == None
  {
    RefreshToken(jti, true, None)
  }

  /** Every record is stored under its own id. */
  ghost predicate KeyedById(s: Store)
  {
    forall k :: k in s ==> s[k].id == k
  }

  /** A record that is still valid has not been rotated. */
  ghost predicate ActiveTokensAreTips(s: Store)
  {
    forall k :: k in s && s[k].isValid ==> s[k].next == None
  }

  /** Every `next` link names a stored record. */
  ghost predicate LinksClosed(s: Store)
  {
    forall k :: k in s && s[k].next.Some? ==> s[k].next.value in s
  }

  /**
   * `rank` witnesses that the `next` links are acyclic: it strictly increases
   * along every link and stays below `bound`.
   */
  ghost predicate Ranked(s: Store, rank: map<Jti, nat>, bound: nat)
  {
    && rank.Keys == s.Keys
    && LinksClosed(s)
    && (forall k :: k in s ==> rank[k] < bound)
    && (forall k :: k in s && s[k].next.Some? ==> rank[k] < rank[s[k].next.value])
  }

  /** Two stores with the same ids and the same `next` links. */
  ghost predicate SameLinks(s: Store, t: Store)
  {
    s.Keys == t.Keys && forall k :: k in s ==> s[k].next == t[k].next
  }

  /** The record reached from `j` after following `next` `n` times, if the chain is that long. */
  function Follow(s: Store, j: Jti, n: nat): (r: Option<Jti>)
    ensures r.Some? ==> r.value in s
    ensures r.Some? && n == 0 ==> r.value == j
    decreases n
  {
    if j !in s then None
    else if n == 0 then Some(j)
    else match s[j].next
      case None => None
      case Some(k) => Follow(s, k, n - 1)
  }

  /** `k` is `j` itself or one of its successors along `next`. */
  ghost predicate InLineage(s: Store, j: Jti, k: Jti)
  {
    exists n: nat :: Follow(s, j, n) == Some(k)
  }

  /** The ids of `j` and of every record reachable from it along `next`. */
  ghost function Lineage(s: Store, j: Jti): set<Jti>
  {
    set k | k in s && InLineage(s, j, k)
  }

  /** The ids reachable from `j` in one step or more. */
  ghost function Descendants(s: Store, j: Jti): set<Jti>
  {
    set k | k in s && exists n: nat :: 1 <= n && Follow(s, j, n) == Some(k)
  }

  /** `s` with every record named in `doomed` marked invalid. */
  function Invalidated(s: Store, doomed: set<Jti>): (r: Store)
    ensures SameLinks(s, r)
    ensures forall k :: k in s ==> r[k].id == s[k].id
    ensures forall k :: k in s ==> (r[k].isValid <==> s[k].isValid && k !in doomed)
  {
    map k | k in s :: if k in doomed then s[k].(isValid := false) else s[k]
  }

  /**
   * What `invalidateSubsequentTokens(j)` leaves behind: `j` and everything
   * reachable from it invalid, every link and every other record as before.
   */
  ghost function Revoke(s: Store, j: Jti): (r: Store)
    ensures SameLinks(s, r)
    ensures forall k :: k in s ==> r[k].id == s[k].id
    ensures forall k :: k in s ==> (r[k].isValid <==> s[k].isValid && !InLineage(s, j, k))
    ensures j in s ==> !r[j].isValid
  {
    assert j in s ==> Follow(s, j, 0) == Some(j);
    Invalidated(s, Lineage(s, j))
  }

  /**
   * What `rotateRefreshToken(old, new)` leaves behind once both lookups
   * succeeded: a fresh record for `newJti`, then the old record invalid and
   * pointing at it.
   */
  function Rotated(s: Store, oldJti: Jti, newJti: Jti): (r: Store)
    requires oldJti in s
    ensures r.Keys == s.Keys + {newJti}
    ensures r[oldJti].id == s[oldJti].id && !r[oldJti].isValid && r[oldJti].next == Some(newJti)
    ensures oldJti != newJti ==> r[newJti] == BuildRefreshToken(newJti)
    ensures forall k :: k in s && k != oldJti && k != newJti ==> r[k] == s[k]
  {
    s[newJti := BuildRefreshToken(newJti)][oldJti := s[oldJti].(isValid := false, next := Some(newJti))]
  }

  // ---------------------------------------------------------------------------
  // Walking the chain

  /** One more step along the chain lands on the current record's `next`. */
  lemma {:induction false} FollowStep(s: Store, j: Jti, n: nat)
    requires LinksClosed(s)
    requires Follow(s, j, n).Some?
    ensures Follow(s, j, n + 1) == s[Follow(s, j, n).value].next
    decreases n
  {
    if n > 0 {
      FollowStep(s, s[j].next.value, n - 1);
    }
  }

  /** Once the chain has ended it stays ended. */
  lemma {:induction false} FollowPastEnd(s: Store, j: Jti, n: nat, m: nat)
    requires Follow(s, j, n) == None
    requires n <= m
    ensures Follow(s, j, m) == None
    decreases n
  {
    if j in s && n > 0 && s[j].next.Some? {
      FollowPastEnd(s, s[j].next.value, n - 1, m - 1);
    }
  }

  /** The walk depends on the links only, never on the validity flags. */
  lemma {:induction false} FollowSameLinks(s: Store, t: Store, j: Jti, n: nat)
    requires SameLinks(s, t)
    ensures Follow(s, j, n) == Follow(t, j, n)
    decreases n
  {
    if j in s && n > 0 && s[j].next.Some? {
      FollowSameLinks(s, t, s[j].next.value, n - 1);
    }
  }

  /** Along a ranked store each step raises the rank. */
  lemma {:induction false} FollowRaisesRank(s: Store, rank: map<Jti, nat>, bound: nat, j: Jti, n: nat)
    requires Ranked(s, rank, bound)
    requires Follow(s, j, n).Some?
    ensures rank[Follow(s, j, n).value] >= rank[j] + n
    decreases n
  {
    if n > 0 {
      FollowRaisesRank(s, rank, bound, s[j].next.value, n - 1);
    }
  }

  /** In a ranked store no record is its own successor, however far one walks. */
  lemma RankedIsAcyclic(s: Store, rank: map<Jti, nat>, bound: nat, j: Jti, n: nat)
    requires Ranked(s, rank, bound)
    requires Follow(s, j, n) == Some(j)
    ensures n == 0
  {
    FollowRaisesRank(s, rank, bound, j, n);
  }

  /** In a ranked store every chain ends within `bound` steps. */
  lemma ChainsEnd(s: Store, rank: map<Jti, nat>, bound: nat, j: Jti)
    requires Ranked(s, rank, bound)
    ensures Follow(s, j, bound) == None
  {
    if Follow(s, j, bound).Some? {
      FollowRaisesRank(s, rank, bound, j, bound);
    }
  }

  /** The lineage of `j` is `j` itself and its descendants. */
  lemma LineageSplits(s: Store, j: Jti)
    requires j in s
    ensures Lineage(s, j) == Descendants(s, j) + {j}
  {
    forall k | k in Lineage(s, j) && k != j
      ensures k in Descendants(s, j)
    {
      var n: nat :| Follow(s, j, n) == Some(k);
    }
    assert Follow(s, j, 0) == Some(j);
  }

  // ---------------------------------------------------------------------------
  // Invalidation

  /** Invalidating a lineage twice leaves the same store as invalidating it once. */
  lemma RevokeIsIdempotent(s: Store, j: Jti)
    ensures Revoke(Revoke(s, j), j) == Revoke(s, j)
  {
    var r := Revoke(s, j);
    forall k, n: nat
      ensures Follow(r, j, n) == Some(k) <==> Follow(s, j, n) == Some(k)
    {
      FollowSameLinks(s, r, j, n);
    }
    assert forall k :: InLineage(r, j, k) <==> InLineage(s, j, k);
    assert Revoke(r, j).Keys == r.Keys;
  }

  /**
   * The walk goes on past a record that is already invalid: its successor is
   * in the lineage too, and so is invalid afterwards.
   */
  lemma RevokeContinuesPastInvalid(s: Store, j: Jti, k: Jti)
    requires LinksClosed(s)
    requires k in s && InLineage(s, j, k)
    requires !s[k].isValid && s[k].next.Some?
    ensures InLineage(s, j, s[k].next.value)
    ensures !Revoke(s, j)[s[k].next.value].isValid
  {
    var n: nat :| Follow(s, j, n) == Some(k);
    FollowStep(s, j, n);
  }

  // ---------------------------------------------------------------------------
  // Rotation

  /** After a rotation the rotated record's lineage is itself and the new token. */
  lemma RotatedLineage(s: Store, oldJti: Jti, newJti: Jti)
    requires oldJti in s && oldJti != newJti
    ensures forall k :: InLineage(Rotated(s, oldJti, newJti), oldJti, k) <==> k == oldJti || k == newJti
  {
    var r := Rotated(s, oldJti, newJti);
    assert Follow(r, oldJti, 0) == Some(oldJti);
    assert Follow(r, oldJti, 1) == Some(newJti);
    assert Follow(r, oldJti, 2) == None;
    forall k, n: nat | Follow(r, oldJti, n) == Some(k)
      ensures k == oldJti || k == newJti
    {
      if n >= 2 {
        FollowPastEnd(r, oldJti, 2, n);
      }
    }
  }

  /**
   * Rotating a record that had already been rotated (the code does not check)
   * cuts its earlier successor out of its lineage, so invalidating from the
   * rotated record afterwards leaves that earlier successor as it was.
   */
  lemma RotateOrphansEarlierSuccessor(s: Store, oldJti: Jti, newJti: Jti, x: Jti)
    requires oldJti in s && x in s && s[oldJti].next == Some(x)
    requires oldJti != newJti && x != oldJti && x != newJti
    ensures !InLineage(Rotated(s, oldJti, newJti), oldJti, x)
    ensures Revoke(Rotated(s, oldJti, newJti), oldJti)[x] == s[x]
  {
    RotatedLineage(s, oldJti, newJti);
  }

  /** With every link pointing at itself, the walk never leaves `j`. */
  lemma {:induction false} SelfLinkNeverEnds(s: Store, j: Jti, n: nat)
    requires j in s && s[j].next == Some(j)
    ensures Follow(s, j, n) == Some(j)
  {
    if n > 0 {
      SelfLinkNeverEnds(s, j, n - 1);
    }
  }

  /**
   * Rotating a token onto its own id makes the record its own successor: the
   * chain from it never ends and no ranking of the store exists.
   */
  lemma SelfRotationIsCyclic(s: Store, j: Jti)
    requires j in s
    ensures forall n: nat :: Follow(Rotated(s, j, j), j, n) == Some(j)
    ensures forall rank, bound :: !Ranked(Rotated(s, j, j), rank, bound)
  {
    forall n: nat
      ensures Follow(Rotated(s, j, j), j, n) == Some(j)
    {
      SelfLinkNeverEnds(Rotated(s, j, j), j, n);
    }
  }
}
