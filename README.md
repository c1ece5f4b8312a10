# Refresh-token chain and user details, modelled in Dafny

This project models two services of a Spring/Kotlin reservation backend.

**The refresh-token service** (`RefreshTokenServiceImpl`) keeps one record for every refresh token it has issued. Each record has three parts:
- the token's id (the JWT `jti`),
- an `isValid` flag,
- a `next` link to the record of the token that replaced it.

The records form chains: every rotation adds a link. The service has four operations:
- save a newly issued token,
- rotate an old token to a new one,
- look a token up by id,
- invalidate a token together with everything reachable from it along `next`.

**The user-details service** (`UserDetailsServiceImpl`) loads a user by e-mail. It grants the authority `"ROLE_" + name` for each of the user's roles and collects the authorities into a set.

Files:
- `wrappers.dfy`: `Option` and `Result`.
- `refresh_token_chain.dfy` (module `RefreshTokenChain`): the repository's contents as a value, `map<Jti, RefreshToken>`. This module has the specification functions and the lemmas about chains:
  - `Follow` walks `n` steps along `next`;
  - `InLineage`, `Lineage` and `Descendants` say what is reachable;
  - `Revoke` gives the effect of an invalidation;
  - `Rotated` gives the effect of a rotation.
- `refresh_token_service.dfy` (module `RefreshTokens`): the service as a class.
  - The repository is a `map` field, and every `save` reassigns it.
  - The methods are proved against the functions above.
  - The traversal is a `while` loop with invariants.
  - Two ghost fields, `rank` and `clock`, witness that the `next` links are acyclic. Ranks strictly increase along every link and stay below `clock`. `clock - rank[cursor]` is the measure that proves the traversal terminates. A newly saved token always gets the largest rank so far, which is why rotation keeps the ranking.
- `user_details.dfy` (module `UserDetails`): authorities and the lookup-or-fail, as functions with lemmas.

The model follows the code, which is simpler than a textbook rotate-on-use design in three ways:
- Rotation is a plain read-then-write. It does not check that the old token is still valid or has no successor. No atomic compare-and-set and no reuse detection exist. `RotateOrphansEarlierSuccessor` shows one consequence: rotating an already rotated token cuts its earlier successor out of its lineage. Invalidating from that token afterwards leaves that successor untouched.
- Saving a token whose id is already stored replaces the stored record. There is no `Conflict` error.
- Invalidation walks on while a `next` exists, whatever the validity of the records it passes. It returns nothing, not a count.

`RotateRefreshToken` requires the new token's id to differ from the old one's. The code that mints the new token is not part of this model, and the model assumes it uses a fresh id. The code shown does not check this. With equal ids it would make the old record its own successor, and a later `invalidateSubsequentTokens` on it would loop forever. `SelfRotationIsCyclic` proves both facts about the record update.

## Model

| member | source | states |
|---|---|---|
| RefreshTokens.RefreshTokenService.constructor | backend/src/main/kotlin/ntnu/idatt2105/sercurity/service/RefreshTokenServiceImpl.kt:13 | the service starts over the injected repository's records, which must be stored under their own ids, valid only without a successor, and acyclic; the invariant then holds |
| RefreshTokens.RefreshTokenService.GetByJti | backend/src/main/kotlin/ntnu/idatt2105/sercurity/service/RefreshTokenServiceImpl.kt:43-46 | returns the stored token when the id is present, and the stored token has that id; fails with RefreshTokenNotFound exactly when it is absent |
| RefreshTokens.RefreshTokenService.ParseToken | backend/src/main/kotlin/ntnu/idatt2105/sercurity/service/RefreshTokenServiceImpl.kt:59-61 | the parsed token's jti; a token that cannot be parsed fails with the NotImplementedError of `TODO()` |
| RefreshTokens.RefreshTokenService.SaveRefreshToken | backend/src/main/kotlin/ntnu/idatt2105/sercurity/service/RefreshTokenServiceImpl.kt:49-56 | on a parsable token, stores a valid record with no successor under the token's jti and returns it, changing no other record; on an unparsable one, fails and leaves the repository unchanged |
| RefreshTokenChain.BuildRefreshToken | backend/src/main/kotlin/ntnu/idatt2105/sercurity/service/RefreshTokenServiceImpl.kt:64-68 | the record built for a new token carries the token's jti, is valid and has no successor |
| RefreshTokens.RefreshTokenService.RotateRefreshToken | backend/src/main/kotlin/ntnu/idatt2105/sercurity/service/RefreshTokenServiceImpl.kt:35-41 | an unknown old id fails with RefreshTokenNotFound before anything is saved; an unparsable new token fails with the repository unchanged; otherwise the repository becomes `Rotated`: old record invalid and linked to the new one, new record valid with no successor; acyclicity is kept |
| RefreshTokenChain.Rotated | backend/src/main/kotlin/ntnu/idatt2105/sercurity/service/RefreshTokenServiceImpl.kt:35-41 | after a rotation the store holds the new id too; the old record is invalid and its next is the new id; the new record is valid with no successor; every other record is unchanged |
| RefreshTokenChain.RotatedLineage | backend/src/main/kotlin/ntnu/idatt2105/sercurity/service/RefreshTokenServiceImpl.kt:35-41 | after a rotation, the rotated record's lineage is exactly itself and the new token |
| RefreshTokenChain.RotateOrphansEarlierSuccessor | backend/src/main/kotlin/ntnu/idatt2105/sercurity/service/RefreshTokenServiceImpl.kt:35-41 | rotating a record that already had a successor removes that successor from its lineage, so a later invalidation from it leaves the successor as it was |
| RefreshTokenChain.SelfRotationIsCyclic | backend/src/main/kotlin/ntnu/idatt2105/sercurity/service/RefreshTokenServiceImpl.kt:35-41 | rotating a token onto its own id makes its record its own successor: the walk from it never ends and no acyclicity ranking exists |
| RefreshTokens.RefreshTokenService.InvalidateSubsequentTokens | backend/src/main/kotlin/ntnu/idatt2105/sercurity/service/RefreshTokenServiceImpl.kt:17-23 | an unknown id fails with RefreshTokenNotFound and changes nothing; otherwise the repository becomes `Revoke(old, jti)`: the starting token and every token reachable from it are invalid, and nothing else changes |
| RefreshTokens.RefreshTokenService.TraverseAndInvalidateNextRefreshTokens | backend/src/main/kotlin/ntnu/idatt2105/sercurity/service/RefreshTokenServiceImpl.kt:26-33 | the loop marks exactly the descendants of the starting token invalid, whatever their validity before; it keeps every link and terminates because ranks strictly increase along `next` |
| RefreshTokenChain.Revoke | backend/src/main/kotlin/ntnu/idatt2105/sercurity/service/RefreshTokenServiceImpl.kt:17-33 | an invalidation keeps every id and every `next` link; a record is valid afterwards exactly when it was valid before and is not in the starting token's lineage; the starting token is invalid |
| RefreshTokenChain.Invalidated | backend/src/main/kotlin/ntnu/idatt2105/sercurity/service/RefreshTokenServiceImpl.kt:29-30 | marking a set of records invalid keeps every id and link, and a record is valid afterwards exactly when it was valid before and is not in the set |
| RefreshTokenChain.Follow | backend/src/main/kotlin/ntnu/idatt2105/sercurity/service/RefreshTokenServiceImpl.kt:27-31 | each step of the walk lands on a stored record, and zero steps land on the start |
| RefreshTokenChain.FollowStep | backend/src/main/kotlin/ntnu/idatt2105/sercurity/service/RefreshTokenServiceImpl.kt:27-31 | one more step along the chain lands on the current record's `next` |
| RefreshTokenChain.FollowPastEnd | backend/src/main/kotlin/ntnu/idatt2105/sercurity/service/RefreshTokenServiceImpl.kt:28 | once `next` is absent the walk has ended for good |
| RefreshTokenChain.FollowSameLinks | backend/src/main/kotlin/ntnu/idatt2105/sercurity/service/RefreshTokenServiceImpl.kt:27-32 | the walk depends only on the `next` links, never on the validity flags |
| RefreshTokenChain.FollowRaisesRank | backend/src/main/kotlin/ntnu/idatt2105/sercurity/service/RefreshTokenServiceImpl.kt:28-32 | in a ranked store, each step strictly raises the rank |
| RefreshTokenChain.RankedIsAcyclic | backend/src/main/kotlin/ntnu/idatt2105/sercurity/service/RefreshTokenServiceImpl.kt:28-32 | in a ranked store, no walk of one step or more returns to where it started |
| RefreshTokenChain.ChainsEnd | backend/src/main/kotlin/ntnu/idatt2105/sercurity/service/RefreshTokenServiceImpl.kt:28-32 | in a ranked store, every walk ends within `bound` steps (the rank bound) |
| RefreshTokenChain.LineageSplits | backend/src/main/kotlin/ntnu/idatt2105/sercurity/service/RefreshTokenServiceImpl.kt:17-23 | the invalidated set is the starting token plus its descendants |
| RefreshTokenChain.RevokeIsIdempotent | backend/src/main/kotlin/ntnu/idatt2105/sercurity/service/RefreshTokenServiceImpl.kt:17-33 | invalidating the same lineage twice gives the same store as invalidating it once |
| RefreshTokenChain.RevokeContinuesPastInvalid | backend/src/main/kotlin/ntnu/idatt2105/sercurity/service/RefreshTokenServiceImpl.kt:28-31 | the walk goes on past a record that is already invalid: its successor is in the lineage and ends up invalid |
| UserDetails.AuthorityFor | backend/src/main/kotlin/ntnu/idatt2105/user/service/UserDetailsServiceImpl.kt:34 | the authority for a role is the prefix `"ROLE_"` followed by the role's name |
| UserDetails.GetAuthorities | backend/src/main/kotlin/ntnu/idatt2105/user/service/UserDetailsServiceImpl.kt:33-35 | the authorities form a set with no more elements than there are roles, so a user without roles has none |
| UserDetails.GrantedIffNamesRole | backend/src/main/kotlin/ntnu/idatt2105/user/service/UserDetailsServiceImpl.kt:33-35 | an authority is granted exactly when it is `"ROLE_"` followed by the name of one of the roles |
| UserDetails.AuthoritiesCountDistinctRoles | backend/src/main/kotlin/ntnu/idatt2105/user/service/UserDetailsServiceImpl.kt:34-35 | duplicate roles collapse: there are exactly as many authorities as distinct roles |
| UserDetails.LoadUserByUsername | backend/src/main/kotlin/ntnu/idatt2105/user/service/UserDetailsServiceImpl.kt:27-31 | fails with the USER / ENTITY_NOT_FOUND application exception, with the arguments `"2"` and the e-mail after the two kinds, exactly when no user has that e-mail; otherwise returns the user's id, e-mail and password unchanged, together with the user's authorities |
| UserDetails.LoadedAuthoritiesNameRoles | backend/src/main/kotlin/ntnu/idatt2105/user/service/UserDetailsServiceImpl.kt:30-35 | loading an existing user succeeds, and its authorities are exactly `"ROLE_"` followed by one of that user's role names |

## Left out

- JWT parsing and signing (`JwtUtil`) is foreign code. It is the constant `parseJti`, a function from the token string to its `jti`, given at construction. `None` stands for `parseToken` returning null.
- The old token's `getJti()` in `rotateRefreshToken` is a call on an already parsed token. `RotateRefreshToken` takes that id directly.
- `UUID.fromString` is not modelled. Ids are compared as strings, and the IllegalArgumentException it throws on a malformed id is not modelled either.
- Persistence is not modelled. The Spring Data repository is a map, and `save` is a map update. Transactions, lazy loading and storage failures are not modelled.
- Concurrency is not modelled. Each method runs alone, so races between two rotations of the same token cannot be expressed.
- Reuse detection, and cascading invalidation on reuse, are not modelled because the code does not have them.
- RefreshTokens.RefreshTokenService.RotateRefreshToken: requires the new token's id to differ from the old one's. The code that mints the new token is not part of this model and is assumed to use a fresh id; the code shown does not check it, and with equal ids it makes a cyclic chain (see `SelfRotationIsCyclic`).
- RefreshTokens.RefreshTokenService.constructor: records already in the injected repository are assumed to be ones these operations could have left: each under its own id, valid only without a successor, and with acyclic links.
- The user repository's `findByEmail` is a map from e-mail to user. How a database with two users under one e-mail would behave is not modelled.
- A user's roles are a sequence of role names. The order and identity of role entities play no part, and the other fields of `User`, `Role` and `UserDetailsImpl` are not part of this model.
- The HTTP controllers, the `UserService` interface, the section DTO, the React API client, the integration tests and the password-reset and mail flow only route requests or have no bodies here. They are not part of this model.
