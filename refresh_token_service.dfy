/**
 * The refresh-token service: saves newly issued refresh tokens, rotates a
 * token to its successor, looks tokens up by id, and invalidates a token
 * together with every token that replaced it. The repository is the table
 * of `RefreshTokenChain`; every `save` is an update of that table.
 */
module RefreshTokens {
  import opened Wrappers
  import opened RefreshTokenChain

  /** A signed token as presented by a caller: the compact string form. */
  datatype JwtToken = JwtToken(token: string)

  /** The exceptions the service throws. */
  datatype TokenError =
    | RefreshTokenNotFound   // no stored refresh token has the id
    | NotImplementedError    // the `TODO()` reached when a token cannot be parsed

  class RefreshTokenService {
    /** `JwtUtil.parseToken`, reduced to the `jti` it yields (`None` when parsing fails). */
    const parseJti: string -> Option<Jti>

    /** The refresh-token repository's contents. */
    var repository: Store

    /** Acyclicity witness: ranks grow along `next` and stay below `clock`. */
    ghost var rank: map<Jti, nat>
    ghost var clock: nat

    ghost predicate Valid()
      reads this
    {
      KeyedById(repository) && ActiveTokensAreTips(repository) && Ranked(repository, rank, clock)
    }

    /**
     * The service over an injected repository that may already hold records;
     * those are taken to be what these operations leave behind: each under its
     * own id, valid only without a successor, and with acyclic links.
     */
    constructor (parseJti: string -> Option<Jti>, initial: Store, ghost initialRank: map<Jti, nat>, ghost bound: nat)
      requires KeyedById(initial) && ActiveTokensAreTips(initial) && Ranked(initial, initialRank, bound)
      ensures Valid()
      ensures this.parseJti == parseJti && repository == initial
    {
      this.parseJti := parseJti;
      repository := initial;
      rank := initialRank;
      clock := bound;
    }

    /** `getByJti`: the stored token with id `jti`, or `RefreshTokenNotFound`. */
    function GetByJti(jti: Jti): (r: Result<RefreshToken, TokenError>)
      reads this
      ensures r.Ok? <==> jti in repository
      ensures r.Ok? ==> r.value == repository[jti]
      ensures r.Ok? && KeyedById(repository) ==> r.value.id == jti
      ensures r.Err? ==> r.error == RefreshTokenNotFound
    {
      if jti in repository then Ok(repository[jti]) else Err(RefreshTokenNotFound)
    }

    /** `parseToken`: the token's `jti`, or the `TODO()` failure when it cannot be parsed. */
    function ParseToken(token: JwtToken): (r: Result<Jti, TokenError>)
      ensures r.Ok? <==> parseJti(token.token).Some?
      ensures r.Ok? ==> parseJti(token.token) == Some(r.value)
      ensures r.Err? ==> r.error == NotImplementedError
    {
      match parseJti(token.token)
      case Some(jti) => Ok(jti)
      case None => Err(NotImplementedError)
    }

    /**
     * `saveRefreshToken`: stores a valid record without successor under the
     * token's `jti`, replacing any record already stored under that id.
     */
    method SaveRefreshToken(token: JwtToken) returns (r: Result<RefreshToken, TokenError>)
      requires Valid()
      modifies this
      ensures Valid()
      ensures parseJti(token.token).None? ==>
        r == Err(NotImplementedError) && repository == old(repository) && rank == old(rank) && clock == old(clock)
      ensures parseJti(token.token).Some? ==>
        var jti := parseJti(token.token).value;
        && r == Ok(BuildRefreshToken(jti))
        && repository == old(repository)[jti := BuildRefreshToken(jti)]
        && rank == old(rank)[jti := old(clock)] && clock == old(clock) + 1
    {
      var jwtRefreshToken := ParseToken(token);
      if jwtRefreshToken.Err? {
        return Err(jwtRefreshToken.error);
      }
      var refreshTokenToSave := BuildRefreshToken(jwtRefreshToken.value);
      repository := repository[refreshTokenToSave.id := refreshTokenToSave];
      rank := rank[refreshTokenToSave.id := clock];
      clock := clock + 1;
      r := Ok(refreshTokenToSave);
    }

    /**
     * `rotateRefreshToken`: looks up the old token, saves the new one, then
     * marks the old one invalid and links it to the new one. Validity of the
     * old token is not checked. The code that mints the new token is not part
     * of this model; the new token is assumed to carry a fresh id. Nothing here
     * checks that, and a new token carrying the old token's own id would make
     * the old record its own successor (`RefreshTokenChain.SelfRotationIsCyclic`).
     */
    method RotateRefreshToken(oldJti: Jti, newRefreshToken: JwtToken) returns (r: Result<(), TokenError>)
      requires Valid()
      requires parseJti(newRefreshToken.token) != Some(oldJti)
      modifies this
      ensures Valid()
      ensures oldJti !in old(repository) ==>
        r == Err(RefreshTokenNotFound) && repository == old(repository)
      ensures oldJti in old(repository) && parseJti(newRefreshToken.token).None? ==>
        r == Err(NotImplementedError) && repository == old(repository)
      ensures oldJti in old(repository) && parseJti(newRefreshToken.token).Some? ==>
        r == Ok(()) && repository == Rotated(old(repository), oldJti, parseJti(newRefreshToken.token).value)
    {
      var found := GetByJti(oldJti);
      if found.Err? {
        return Err(found.error);
      }
      var oldRefreshToken := found.value;
      ghost var oldRank := rank[oldJti];
      ghost var oldClock := clock;
      var saved := SaveRefreshToken(newRefreshToken);
      if saved.Err? {
        return Err(saved.error);
      }
      var nextRefreshToken := saved.value;
      assert rank[oldJti] == oldRank < oldClock == rank[nextRefreshToken.id];
      oldRefreshToken := oldRefreshToken.(isValid := false, next := Some(nextRefreshToken.id));
      repository := repository[oldRefreshToken.id := oldRefreshToken];
      r := Ok(());
    }

    /**
     * `invalidateSubsequentTokens`: marks every token reachable from `jti`
     * invalid, then `jti` itself.
     */
    method InvalidateSubsequentTokens(jti: Jti) returns (r: Result<(), TokenError>)
      requires Valid()
      modifies this
      ensures Valid() && rank == old(rank) && clock == old(clock)
      ensures jti !in old(repository) ==>
        r == Err(RefreshTokenNotFound) && repository == old(repository)
      ensures jti in old(repository) ==>
        r == Ok(()) && repository == Revoke(old(repository), jti)
    {
      var found := GetByJti(jti);
      if found.Err? {
        return Err(found.error);
      }
      var refreshToken := found.value;
      TraverseAndInvalidateNextRefreshTokens(refreshToken);
      refreshToken := refreshToken.(isValid := false);
      repository := repository[refreshToken.id := refreshToken];
      r := Ok(());
      LineageSplits(old(repository), jti);
      assert repository == Invalidated(old(repository), Lineage(old(repository), jti));
    }

    /**
     * `traverseAndInvalidateNextRefreshTokens`: follows `next` from `start`
     * for as long as there is one, marking each token invalid whatever its
     * current validity.
     */
    method TraverseAndInvalidateNextRefreshTokens(start: RefreshToken)
      requires Valid()
      requires start.id in repository && repository[start.id] == start
      modifies this
      ensures Valid() && rank == old(rank) && clock == old(clock)
      ensures repository == Invalidated(old(repository), Descendants(old(repository), start.id))
    {
      ghost var s0 := repository;
      ghost var steps: nat := 1;
      ghost var done: set<Jti> := {};
      var nextToken := start.next;
      assert nextToken == Follow(s0, start.id, 1);
      while nextToken.Some?
        invariant rank == old(rank) && clock == old(clock)
        invariant Ranked(s0, rank, clock) && KeyedById(s0) && ActiveTokensAreTips(s0)
        invariant 1 <= steps
        invariant nextToken == Follow(s0, start.id, steps)
        invariant forall i :: 1 <= i < steps ==> Follow(s0, start.id, i).Some? && Follow(s0, start.id, i).value in done
        invariant forall k :: k in done ==> k in Descendants(s0, start.id)
        invariant repository == Invalidated(s0, done)
        decreases if nextToken.Some? then clock - rank[nextToken.value] else 0
      {
        var current := repository[nextToken.value];
        current := current.(isValid := false);
        repository := repository[current.id := current];
        FollowStep(s0, start.id, steps);
        done := done + {current.id};
        steps := steps + 1;
        nextToken := current.next;
      }
      forall k | k in Descendants(s0, start.id)
        ensures k in done
      {
        var n: nat :| 1 <= n && Follow(s0, start.id, n) == Some(k);
        if n >= steps {
          FollowPastEnd(s0, start.id, steps, n);
        }
      }
    }
  }
}
