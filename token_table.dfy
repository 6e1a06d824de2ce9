/**
  The refresh-token table: rows keyed by their identity column, at most one
  row per user, token values unique. Rotation and expiry as value-level rules.
*/
module TokenTable {
  import opened Results
  import opened Entities

  /** A refresh token lives for 30 days, counted in seconds. */
  const REFRESH_TOKEN_VALIDITY: int := 30 * 24 * 60 * 60

  type Table = map<nat, RefreshToken>

  predicate OneRowPerUser(t: Table) {
    forall a, b :: a in t && b in t && t[a].user == t[b].user ==> a == b
  }

  predicate DistinctValues(t: Table) {
    forall a, b :: a in t && b in t && t[a].token == t[b].token ==> a == b
  }

  predicate Keyed(t: Table) {
    forall k :: k in t ==> t[k].id == k
  }

  /** Rows are keyed by their id, ids stay below the next identity value, and the two uniqueness rules hold. */
  predicate TableValid(t: Table, nextId: nat) {
    && Keyed(t)
    && (forall k :: k in t ==> k < nextId)
    && OneRowPerUser(t)
    && DistinctValues(t)
  }

  predicate ValueInUse(t: Table, value: string) {
    exists k :: k in t && t[k].token == value
  }

  /** RefreshTokenRepository.findByUser: the id of the user's row, if any. */
  function RowOf(t: Table, user: UserId): (r: Option<nat>)
    requires OneRowPerUser(t)
    ensures r.Some? <==> exists k :: k in t && t[k].user == user
    ensures r.Some? ==> r.value in t && t[r.value].user == user
  {
    if exists k :: k in t && t[k].user == user then
      var k :| k in t && t[k].user == user; Some(k)
    else None
  }

  /** findByToken: the row holding exactly this value, or ResourceNotFound. */
  function FindByToken(t: Table, value: string): (r: Result<RefreshToken>)
    requires Keyed(t) && DistinctValues(t)
    ensures r.Ok? <==> ValueInUse(t, value)
    ensures r.Ok? ==> r.value.id in t && t[r.value.id] == r.value && r.value.token == value
    ensures r.Err? ==> r.error == ResourceNotFound
  {
    if exists k :: k in t && t[k].token == value then
      var k :| k in t && t[k].token == value; Ok(t[k])
    else Err(ResourceNotFound)
  }

  /**
    createRefreshToken on the table: the user's row, if there is one, gets the
    newValue value and a new expiry in place; otherwise a new row is added.
  */
  function Rotate(t: Table, user: UserId, newValue: string, now: int, newId: nat): Table
    requires OneRowPerUser(t)
  {
    match RowOf(t, user)
    case Some(k) => t[k := t[k].(token := newValue, expiresDate := now + REFRESH_TOKEN_VALIDITY)]
    case None => t[newId := RefreshToken(newId, newValue, now + REFRESH_TOKEN_VALIDITY, user)]
  }

  /** The identity value after a rotation: consumed only when a row was inserted. */
  function NextIdAfterRotate(t: Table, user: UserId, nextId: nat): nat
    requires OneRowPerUser(t)
  {
    if RowOf(t, user).Some? then nextId else nextId + 1
  }

  /** verifyRefreshToken on the table: a token strictly past its expiry has its row deleted. */
  function Verify(t: Table, token: RefreshToken, now: int): Table {
    if token.expiresDate < now then t - {token.id} else t
  }

  /** Rotation with a fresh value keeps the table valid. */
  lemma RotateKeepsValid(t: Table, nextId: nat, user: UserId, newValue: string, now: int)
    requires TableValid(t, nextId)
    requires !ValueInUse(t, newValue)
    ensures TableValid(Rotate(t, user, newValue, now, nextId), NextIdAfterRotate(t, user, nextId))
  {
    var r := Rotate(t, user, newValue, now, nextId);
    match RowOf(t, user)
    case Some(k) =>
      forall a, b | a in r && b in r && r[a].token == r[b].token ensures a == b {
        if a != k && b != k {
          assert t[a].token == t[b].token;
        }
      }
    case None =>
      forall a, b | a in r && b in r && r[a].user == r[b].user ensures a == b {
        if a != nextId && b != nextId {
          assert t[a].user == t[b].user;
        }
      }
      forall a, b | a in r && b in r && r[a].token == r[b].token ensures a == b {
        if a != nextId && b != nextId {
          assert t[a].token == t[b].token;
        }
      }
  }

  /** Rotation overwrites the user's row in place (same id, no new row) or inserts the first one; other rows are untouched. */
  lemma RotateEffect(t: Table, nextId: nat, user: UserId, newValue: string, now: int)
    requires TableValid(t, nextId)
    ensures var r := Rotate(t, user, newValue, now, nextId);
      var id := if RowOf(t, user).Some? then RowOf(t, user).value else nextId;
      && r.Keys == t.Keys + {id}
      && r[id] == RefreshToken(id, newValue, now + REFRESH_TOKEN_VALIDITY, user)
      && (forall k :: k in t && k != id ==> r[k] == t[k])
      && (RowOf(t, user).Some? ==> |r| == |t|)
      && (RowOf(t, user).None? ==> |r| == |t| + 1)
  {
    match RowOf(t, user)
    case Some(k) => RotateExisting(t, user, newValue, now, nextId, k);
    case None => RotateInsert(t, nextId, user, newValue, now);
  }

  lemma RotateExisting(t: Table, user: UserId, newValue: string, now: int, nextId: nat, k: nat)
    requires Keyed(t) && OneRowPerUser(t) && RowOf(t, user) == Some(k)
    ensures var r := Rotate(t, user, newValue, now, nextId);
      && r.Keys == t.Keys && |r| == |t|
      && r[k] == RefreshToken(k, newValue, now + REFRESH_TOKEN_VALIDITY, user)
      && (forall j :: j in t && j != k ==> r[j] == t[j])
  {
    var r := t[k := t[k].(token := newValue, expiresDate := now + REFRESH_TOKEN_VALIDITY)];
    assert Rotate(t, user, newValue, now, nextId) == r;
    assert r.Keys == t.Keys;
  }

  lemma RotateInsert(t: Table, nextId: nat, user: UserId, newValue: string, now: int)
    requires TableValid(t, nextId) && RowOf(t, user).None?
    ensures var r := Rotate(t, user, newValue, now, nextId);
      && r.Keys == t.Keys + {nextId} && |r| == |t| + 1
      && r[nextId] == RefreshToken(nextId, newValue, now + REFRESH_TOKEN_VALIDITY, user)
      && (forall j :: j in t ==> r[j] == t[j])
  {
    var r := t[nextId := RefreshToken(nextId, newValue, now + REFRESH_TOKEN_VALIDITY, user)];
    assert Rotate(t, user, newValue, now, nextId) == r;
    assert nextId !in t;
    assert r.Keys == t.Keys + {nextId};
  }

  /** After rotation the fresh value resolves to the user's row. */
  lemma RotateResolvesFresh(t: Table, nextId: nat, user: UserId, newValue: string, now: int)
    requires TableValid(t, nextId)
    requires !ValueInUse(t, newValue)
    ensures var r := Rotate(t, user, newValue, now, nextId);
      TableValid(r, NextIdAfterRotate(t, user, nextId))
      && FindByToken(r, newValue).Ok?
      && FindByToken(r, newValue).value.user == user
      && FindByToken(r, newValue).value.expiresDate == now + REFRESH_TOKEN_VALIDITY
  {
    RotateKeepsValid(t, nextId, user, newValue, now);
    RotateEffect(t, nextId, user, newValue, now);
  }

  /** After rotation the user's previous value no longer resolves. */
  lemma RotateRevokesPrevious(t: Table, nextId: nat, user: UserId, newValue: string, now: int, previous: string)
    requires TableValid(t, nextId)
    requires !ValueInUse(t, newValue)
    requires FindByToken(t, previous).Ok? && FindByToken(t, previous).value.user == user
    ensures var r := Rotate(t, user, newValue, now, nextId);
      TableValid(r, NextIdAfterRotate(t, user, nextId)) && FindByToken(r, previous) == Err(ResourceNotFound)
  {
    RotateKeepsValid(t, nextId, user, newValue, now);
    var r := Rotate(t, user, newValue, now, nextId);
    var k := FindByToken(t, previous).value.id;
    assert RowOf(t, user) == Some(k);
    assert previous != newValue;
  }

  /** A token found in the table and strictly past expiry is gone after verification. */
  lemma VerifyConsumesExpired(t: Table, nextId: nat, value: string, now: int)
    requires TableValid(t, nextId)
    requires FindByToken(t, value).Ok? && FindByToken(t, value).value.expiresDate < now
    ensures var r := Verify(t, FindByToken(t, value).value, now);
      TableValid(r, nextId) && FindByToken(r, value) == Err(ResourceNotFound) && |r| == |t| - 1
  {
    var row := FindByToken(t, value).value;
    var r := Verify(t, row, now);
    assert r.Keys == t.Keys - {row.id};
  }
}
