/** The user repository: three buckets (users, tokens, WebAuthn credentials),
    each saved through the one generic upsert of `Tables`, plus the
    secondary-key lookups used by authentication. Every operation is a pure
    function of the store; saves and removals return the new store. */
module UserRepository {
  import opened Wrappers
  import opened Seqs
  import opened Tables

  datatype UserFields = UserFields(userId: string, name: string)
  datatype TokenFields = TokenFields(tokenId: string, tokenKey: string, userId: string)
  /** `browserType` is nullable in storage; None stands for SQL NULL. */
  datatype CredentialFields = CredentialFields(wancId: string, userId: string, browserType: Option<string>)

  type User = Entity<UserFields>
  type Token = Entity<TokenFields>
  type Credential = Entity<CredentialFields>

  datatype Store = Store(
    users: Table<UserFields>,
    tokens: Table<TokenFields>,
    credentials: Table<CredentialFields>)

  /** The result of the composed token-then-owner lookup. */
  datatype UserAndToken = UserAndToken(token: Row<TokenFields>, user: Row<UserFields>)

  predicate Valid(s: Store) {
    Tables.Valid(s.users) && Tables.Valid(s.tokens) && Tables.Valid(s.credentials)
  }

  function EmptyStore(): (s: Store)
    ensures Valid(s)
    ensures |s.users.rows| == 0 && |s.tokens.rows| == 0 && |s.credentials.rows| == 0
  {
    Store(EmptyTable(), EmptyTable(), EmptyTable())
  }

  // ---- saves: the generic upsert on one bucket, the other two untouched ----

  function SaveUser(s: Store, user: User): (res: (Store, SaveOutcome))
    ensures (res.0.users, res.1) == Save(s.users, user)
    ensures res.0.tokens == s.tokens && res.0.credentials == s.credentials
    ensures Valid(s) ==> Valid(res.0)
  {
    var (users, outcome) := Save(s.users, user);
    (s.(users := users), outcome)
  }

  function SaveToken(s: Store, token: Token): (res: (Store, SaveOutcome))
    ensures (res.0.tokens, res.1) == Save(s.tokens, token)
    ensures res.0.users == s.users && res.0.credentials == s.credentials
    ensures Valid(s) ==> Valid(res.0)
  {
    var (tokens, outcome) := Save(s.tokens, token);
    (s.(tokens := tokens), outcome)
  }

  function SaveCredential(s: Store, credential: Credential): (res: (Store, SaveOutcome))
    ensures (res.0.credentials, res.1) == Save(s.credentials, credential)
    ensures res.0.users == s.users && res.0.tokens == s.tokens
    ensures Valid(s) ==> Valid(res.0)
  {
    var (credentials, outcome) := Save(s.credentials, credential);
    (s.(credentials := credentials), outcome)
  }

  // ---- lookups ----

  function FindUserByName(s: Store, name: string): (r: Option<Row<UserFields>>)
    ensures r.None? <==> forall i :: 0 <= i < |s.users.rows| ==> s.users.rows[i].fields.name != name
    ensures r.Some? ==> r.value in s.users.rows && r.value.fields.name == name
  {
    FindOne(s.users, (f: UserFields) => f.name == name)
  }

  function FindUserByUserId(s: Store, userId: string): (r: Option<Row<UserFields>>)
    ensures r.None? <==> forall i :: 0 <= i < |s.users.rows| ==> s.users.rows[i].fields.userId != userId
    ensures r.Some? ==> r.value in s.users.rows && r.value.fields.userId == userId
  {
    FindOne(s.users, (f: UserFields) => f.userId == userId)
  }

  function FindTokenByTokenKey(s: Store, tokenKey: string): (r: Option<Row<TokenFields>>)
    ensures r.None? <==> forall i :: 0 <= i < |s.tokens.rows| ==> s.tokens.rows[i].fields.tokenKey != tokenKey
    ensures r.Some? ==> r.value in s.tokens.rows && r.value.fields.tokenKey == tokenKey
  {
    FindOne(s.tokens, (f: TokenFields) => f.tokenKey == tokenKey)
  }

  /** Resolve the token, then its owner; "not found" when either step fails,
      without saying which. */
  function FindUserAndTokenByTokenKey(s: Store, tokenKey: string): (r: Option<UserAndToken>)
    ensures r.None? <==>
      || FindTokenByTokenKey(s, tokenKey).None?
      || FindUserByUserId(s, FindTokenByTokenKey(s, tokenKey).value.fields.userId).None?
    ensures r.Some? ==>
      && r.value.token in s.tokens.rows
      && r.value.user in s.users.rows
      && r.value.token.fields.tokenKey == tokenKey
      && r.value.user.fields.userId == r.value.token.fields.userId
  {
    match FindTokenByTokenKey(s, tokenKey)
    case None => None
    case Some(token) =>
      match FindUserByUserId(s, token.fields.userId)
      case None => None
      case Some(user) => Some(UserAndToken(token, user))
  }

  /** Every token of a user, in storage order. */
  function ListTokens(s: Store, userId: string): (r: seq<Row<TokenFields>>)
    ensures forall t :: t in r <==> t in s.tokens.rows && t.fields.userId == userId
    ensures forall t :: multiset(r)[t] == if t.fields.userId == userId then multiset(s.tokens.rows)[t] else 0
    ensures Subsequence(r, s.tokens.rows)
  {
    FindAll(s.tokens, OwnedBy(userId))
  }

  /** The selection `{ userId }` of `listTokens`. */
  function OwnedBy(userId: string): (p: TokenFields -> bool)
    ensures forall f :: p(f) <==> f.userId == userId
  {
    (f: TokenFields) => f.userId == userId
  }

  /** Both fields match exactly; a None browser type matches only stored NULLs. */
  function FindCredentialByUserIdAndBrowserType(s: Store, userId: string, browserType: Option<string>)
    : (r: Option<Row<CredentialFields>>)
    ensures r.None? <==> forall i :: 0 <= i < |s.credentials.rows| ==>
      s.credentials.rows[i].fields.userId != userId || s.credentials.rows[i].fields.browserType != browserType
    ensures r.Some? ==> r.value in s.credentials.rows
    ensures r.Some? ==> r.value.fields.userId == userId && r.value.fields.browserType == browserType
  {
    FindOne(s.credentials, (f: CredentialFields) => f.userId == userId && f.browserType == browserType)
  }

  // ---- removals by domain identifier; the count is what the TypeScript code logs ----

  function RemoveToken(s: Store, tokenId: string): (res: (Store, nat))
    ensures forall t :: t in res.0.tokens.rows <==> t in s.tokens.rows && t.fields.tokenId != tokenId
    ensures Subsequence(res.0.tokens.rows, s.tokens.rows)
    ensures (forall t :: t in s.tokens.rows ==> t.fields.tokenId != tokenId) ==> res == (s, 0)
    ensures res.1 == |s.tokens.rows| - |res.0.tokens.rows|
    ensures res.1 == 0 <==> res.0 == s
    ensures res.0.users == s.users && res.0.credentials == s.credentials
    ensures Valid(s) ==> Valid(res.0)
  {
    var (tokens, count) := RemoveAll(s.tokens, (f: TokenFields) => f.tokenId == tokenId);
    (s.(tokens := tokens), count)
  }

  function RemoveCredential(s: Store, wancId: string): (res: (Store, nat))
    ensures forall c :: c in res.0.credentials.rows <==> c in s.credentials.rows && c.fields.wancId != wancId
    ensures Subsequence(res.0.credentials.rows, s.credentials.rows)
    ensures (forall c :: c in s.credentials.rows ==> c.fields.wancId != wancId) ==> res == (s, 0)
    ensures res.1 == |s.credentials.rows| - |res.0.credentials.rows|
    ensures res.1 == 0 <==> res.0 == s
    ensures res.0.users == s.users && res.0.tokens == s.tokens
    ensures Valid(s) ==> Valid(res.0)
  {
    var (credentials, count) := RemoveAll(s.credentials, (f: CredentialFields) => f.wancId == wancId);
    (s.(credentials := credentials), count)
  }

  // ---- properties relating several operations ----

  /** A freshly inserted user is found by its name afterwards. */
  lemma InsertedUserIsFoundByName(s: Store, user: User)
    requires Valid(s) && user.id.None?
    ensures FindUserByName(SaveUser(s, user).0, user.fields.name).Some?
  {
  }

  /** Inserting a token extends its owner's listing by exactly that token, at
      the end, and leaves every other user's listing as it was. */
  lemma {:induction false} ListTokensAfterInsert(s: Store, token: Token, userId: string)
    requires Valid(s) && token.id.None?
    ensures ListTokens(SaveToken(s, token).0, userId) ==
      ListTokens(s, userId)
        + (if token.fields.userId == userId then [Row(SaveToken(s, token).1.id, token.fields)] else [])
  {
    var (s', outcome) := SaveToken(s, token);
    var row := Row(outcome.id, token.fields);
    assert s'.tokens.rows == s.tokens.rows + [row];
    var q := OnFields(OwnedBy(userId));
    FilterAppend(s.tokens.rows, [row], q);
    assert Filter([row], q) == if q(row) then [row] else [] by {
      assert [row][1..] == [];
    }
  }

  /** The lookup by user id and browser type never treats None as a wildcard. */
  lemma NullBrowserTypeMatchesOnlyNull(s: Store, userId: string)
    ensures FindCredentialByUserIdAndBrowserType(s, userId, None).Some? ==>
      FindCredentialByUserIdAndBrowserType(s, userId, None).value.fields.browserType.None?
    ensures FindCredentialByUserIdAndBrowserType(s, userId, None).None? <==>
      forall c :: c in s.credentials.rows && c.fields.userId == userId ==> c.fields.browserType.Some?
  {
  }

  /** Create alice, save her, look her up; give her a token, save it, look it
      up directly and through the composed lookup. */
  lemma AliceScenario()
    ensures
      var (s1, o1) := SaveUser(EmptyStore(), Entity(None, UserFields("u1", "alice")));
      var (s2, o2) := SaveToken(s1, Entity(None, TokenFields("t1", "tk1", "u1")));
      && FindUserByName(s1, "alice") == Some(Row(o1.id, UserFields("u1", "alice")))
      && FindTokenByTokenKey(s2, "tk1") == Some(Row(o2.id, TokenFields("t1", "tk1", "u1")))
      && FindUserAndTokenByTokenKey(s2, "tk1") ==
           Some(UserAndToken(Row(o2.id, TokenFields("t1", "tk1", "u1")), Row(o1.id, UserFields("u1", "alice"))))
      && FindUserAndTokenByTokenKey(s2, "tk2").None?
  {
  }
}
