/**
  The refresh-token service: one row per user, rotated in place on every
  create, deleted when verification finds it expired.
*/
module RefreshTokenService {
  import opened Results
  import opened Entities
  import opened Repositories
  import TokenTable

  /**
    createRefreshToken. newValue and now stand for the random UUID and the
    clock; a UUID is assumed not to collide with a stored token.
  */
  method CreateRefreshToken(store: Store, email: string, newValue: string, now: int) returns (r: Result<RefreshToken>)
    requires store.Valid()
    requires !TokenTable.ValueInUse(store.tokens, newValue)
    modifies store`tokens, store`nextTokenId
    ensures store.Valid()
    ensures r.Ok? <==> UserByEmail(store.users, email).Some?
    ensures r.Err? ==>
      r.error == ResourceNotFound && store.tokens == old(store.tokens) && store.nextTokenId == old(store.nextTokenId)
    ensures r.Ok? ==>
      var user := UserByEmail(store.users, email).value;
      && store.tokens == TokenTable.Rotate(old(store.tokens), user, newValue, now, old(store.nextTokenId))
      && store.nextTokenId == TokenTable.NextIdAfterRotate(old(store.tokens), user, old(store.nextTokenId))
      && r.value.id in store.tokens && store.tokens[r.value.id] == r.value
      && r.value == RefreshToken(r.value.id, newValue, now + TokenTable.REFRESH_TOKEN_VALIDITY, user)
  {
    var found := UserByEmail(store.users, email);
    if found.None? {
      return Err(ResourceNotFound);
    }
    var user := found.value;
    ghost var rotated := TokenTable.Rotate(store.tokens, user, newValue, now, store.nextTokenId);
    TokensValidAfterRotate(store.tokens, store.nextTokenId, store.users, user, newValue, now);
    var row := TokenTable.RowOf(store.tokens, user);
    var token: RefreshToken;
    if row.None? {
      token := RefreshToken(store.nextTokenId, newValue, now + TokenTable.REFRESH_TOKEN_VALIDITY, user);
      store.nextTokenId := store.nextTokenId + 1;
    } else {
      token := store.tokens[row.value];
      token := token.(token := newValue);
      token := token.(expiresDate := now + TokenTable.REFRESH_TOKEN_VALIDITY);
    }
    store.tokens := store.tokens[token.id := token];
    assert store.tokens == rotated;
    r := Ok(token);
  }

  /** findByToken: the row whose value is exactly the argument. */
  function FindByToken(store: Store, value: string): (r: Result<RefreshToken>)
    reads store
    requires store.Valid()
    ensures r.Ok? <==> exists k :: k in store.tokens && store.tokens[k].token == value
    ensures r.Ok? ==> r.value in store.tokens.Values && r.value.token == value
    ensures r.Err? ==> r.error == ResourceNotFound
  {
    TokenTable.FindByToken(store.tokens, value)
  }

  /**
    verifyRefreshToken: the caller's copy of the token is checked against now;
    one strictly past expiry has its row deleted and is refused.
  */
  method VerifyRefreshToken(store: Store, token: RefreshToken, now: int) returns (r: Result<RefreshToken>)
    requires store.Valid()
    modifies store`tokens
    ensures store.Valid()
    ensures token.expiresDate < now ==> r == Err(ResourceNotFound) && store.tokens == old(store.tokens) - {token.id}
    ensures now <= token.expiresDate ==> r == Ok(token) && store.tokens == old(store.tokens)
  {
    if token.expiresDate < now {
      store.tokens := store.tokens - {token.id};
      return Err(ResourceNotFound);
    }
    r := Ok(token);
  }

  /** getUserByToken: looks the row up again by value and returns its owner. */
  function GetUserByToken(store: Store, token: RefreshToken): (r: Result<User>)
    reads store
    requires store.Valid()
    ensures r.Ok? <==> FindByToken(store, token.token).Ok?
    ensures r.Err? ==> r.error == ResourceNotFound
    ensures r.Ok? ==> r.value == store.users[FindByToken(store, token.token).value.user]
  {
    match TokenTable.FindByToken(store.tokens, token.token)
    case Err(e) => Err(e)
    case Ok(row) => Ok(store.users[row.user])
  }

  /**
    The regenerate-token request: find the row by value, verify it, then
    resolve its owner. An expired token ends with its row deleted.
  */
  method RegenerateToken(store: Store, value: string, now: int) returns (r: Result<User>)
    requires store.Valid()
    modifies store`tokens
    ensures store.Valid()
    ensures old(FindByToken(store, value)).Err? ==> r == Err(ResourceNotFound) && store.tokens == old(store.tokens)
    ensures old(FindByToken(store, value)).Ok? ==>
      var row := old(FindByToken(store, value)).value;
      && (row.expiresDate < now ==>
            r == Err(ResourceNotFound) && store.tokens == old(store.tokens) - {row.id}
            && FindByToken(store, value).Err?)
      && (now <= row.expiresDate ==> r == Ok(store.users[row.user]) && store.tokens == old(store.tokens))
  {
    var found := FindByToken(store, value);
    if found.Err? {
      return Err(found.error);
    }
    ghost var before := store.tokens;
    var verified := VerifyRefreshToken(store, found.value, now);
    if verified.Err? {
      TokenTable.VerifyConsumesExpired(before, store.nextTokenId, value, now);
      return Err(verified.error);
    }
    r := GetUserByToken(store, verified.value);
  }
}
