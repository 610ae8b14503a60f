/** `account_new` (routes/account.rs): the root account creates an account and its Admin token. */
module AccountRoutes {
  import opened Wrappers
  import opened Ids
  import opened AccessTokens
  import opened Time
  import opened Db
  import opened Errors

  /**
   * What `account_new` commits: nothing unless the caller holds the Root
   * token; then the account and one Admin token owned by it. No reverse
   * token entry is written.
   */
  function AccountNewOutcome(t: Tables, auth: AccessTokenRecord, accountId: AccountId, adminToken: AccessToken, now: Ts)
    : (o: Outcome<(AccountId, AccessToken)>)
    ensures o.result.Err? <==> auth.tokenType != Root
    ensures o.result.Err? ==> o.tables == t && o.result.error == User(Unauthorized)
    ensures o.result.Ok? ==> o.result.value == (accountId, adminToken)
  {
    match EnsureCanCreateAccounts(auth)
    case Err(e) => Outcome(t, Err(User(e)))
    case Ok(_) =>
      Outcome(t.(accounts := t.accounts[accountId := AccountRecord(now)],
                 accessTokens := t.accessTokens[adminToken := AccessTokenRecord(now, accountId, Admin)]),
              Ok((accountId, adminToken)))
  }

  /**
   * The new account exists, its token is an Admin token of that account
   * and nothing else: it may create tokens for the new account and may not
   * create accounts. Only the accounts and access-tokens tables change.
   */
  lemma {:induction false} AccountNewEffect(t: Tables, auth: AccessTokenRecord, accountId: AccountId, adminToken: AccessToken, now: Ts)
    requires AccountNewOutcome(t, auth, accountId, adminToken, now).result.Ok?
    ensures var u := AccountNewOutcome(t, auth, accountId, adminToken, now).tables;
      && u.accounts.Keys == t.accounts.Keys + {accountId}
      && u.accounts[accountId].created == now
      && u.accessTokens.Keys == t.accessTokens.Keys + {adminToken}
      && u.accessTokens[adminToken].created == now
      && EnsureCanCreateTokens(u.accessTokens[adminToken], accountId).Ok?
      && EnsureCanCreateAccounts(u.accessTokens[adminToken]).Err?
      && (forall a :: a in t.accounts && a != accountId ==> u.accounts[a] == t.accounts[a])
      && (forall k :: k in t.accessTokens && k != adminToken ==> u.accessTokens[k] == t.accessTokens[k])
      && u.(accounts := t.accounts, accessTokens := t.accessTokens) == t
  {
  }

  /** Without a reverse entry for the new token, existing reverse entries stay sound when the token is fresh. */
  lemma {:induction false} AccountNewKeepsReverseTokens(t: Tables, auth: AccessTokenRecord, accountId: AccountId, adminToken: AccessToken, now: Ts)
    requires ReverseTokensSound(t)
    requires adminToken !in t.accessTokens
    ensures ReverseTokensSound(AccountNewOutcome(t, auth, accountId, adminToken, now).tables)
  {
    var u := AccountNewOutcome(t, auth, accountId, adminToken, now).tables;
    forall p | p in u.accessTokensRev
      ensures p.1 in u.accessTokens && u.accessTokens[p.1].accountId == p.0
    {
      assert p in t.accessTokensRev;
    }
  }

  /** `account_new`: the privilege check, then one write transaction with both inserts. */
  method AccountNew(db: Database, auth: AccessTokenRecord, accountId: AccountId, adminToken: AccessToken, now: Ts)
    returns (r: Result<(AccountId, AccessToken), Cause>)
    modifies db
    ensures db.tables == AccountNewOutcome(old(db.tables), auth, accountId, adminToken, now).tables
    ensures r == AccountNewOutcome(old(db.tables), auth, accountId, adminToken, now).result
  {
    var check := EnsureCanCreateAccounts(auth);
    if check.Err? {
      return Err(User(check.error));
    }
    var tx := db.BeginWrite();
    tx.InsertAccount(accountId, AccountRecord(now));
    tx.InsertAccessToken(adminToken, AccessTokenRecord(now, accountId, Admin));
    db.Commit(tx);
    r := Ok((accountId, adminToken));
  }
}
